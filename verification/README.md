# Configuration sweeps, overrides and construction — a Dafny model

The modelled library drives machine-learning experiments from nested Python
dictionaries, called configurations. It has three parts.

- **Sweeps** (`ml_utilities/configs/sweep.py`). Lists of override sets, one
  set per experiment. An override is a `{'node': path, 'value': v}`
  dictionary. The combinators are:
  - `discrete`: one set per value for a single node;
  - `product`: the Cartesian product of several sweeps, the first one
    varying slowest;
  - `zipper`: point-wise concatenation of sweeps;
  - `add_log_dir_sweep`: adds to every set one more override that holds a log
    directory name derived from the set.
- **Overrides** (`ml_utilities/configs/override_config.py`).
  - `override_config_node` follows a path of keys through nested
    dictionaries and replaces the value at its end.
  - `override_config` applies a list of overrides in order.
- **Construction** (`ml_utilities/configs/build_from_config.py`).
  `build_from_config` walks a configuration and turns reserved-key
  dictionaries into objects:
  - `constructor`/`args`/`kwargs` makes a call;
  - `module`/`method` makes an attribute reference;
  - `choice`/`options` makes a selection.

  Lists, tuples and plain dictionaries are rebuilt element by element.

  The older `src/configs/build_from_config.py` builds only the
  `constructor` form. It returns every other value verbatim.

The files and modules are:

- `config_tree.dfy`, module `ConfigTree`:
  - Python values: scalars, lists, tuples, insertion-ordered dictionaries,
    and symbolic constructor calls;
  - dictionary membership and lookup;
  - Python subscription;
  - the exceptions the code raises.
- `wrappers.dfy`, module `Wrappers`: `Option` and `Result`.
- `override_config.dfy`:
  - module `Overrides`: the override engine, written as pure functions that
    return the new tree;
  - modules `OverrideLaws` and `OverrideConfigLaws`: its laws.
- `sweep.dfy`:
  - module `Sweeps`: the combinators;
  - module `SweepLaws`: counting, row-major order, and completeness of the
    product; the zipper's algebra; when log-directory names are unambiguous.
- `sweep_application.dfy`, module `SweepApplication`: what one experiment's
  configuration looks like once its override set has been applied.
- `build_from_config.dfy`:
  - module `Construction`: the construction engine;
  - module `ConstructionLaws`: its laws.
- `legacy_build_from_config.dfy`:
  - module `LegacyConstruction`: the older engine;
  - module `LegacyConstructionLaws`: its laws, plus where the two engines
    agree and where they differ.

A Python exception is an `Err` of the `Error` type in the model.
`override_config` mutates its argument in place. When an override raises,
the configuration has already been mutated by the earlier overrides.
`Overrides.Applied` records both that state and the exception.

The Python code calls three things outside the model. Each one becomes a
parameter:

- `importlib.import_module` and `getattr`, through the `Resolver` argument;
- Python's `str` on override values, through the `show` argument;
- calls to constructors. A call is kept symbolic as
  `Instance(constructor, args, kwargs)`.

## Model

| member | source | states |
|---|---|---|
| ConfigTree.Find | ml_utilities/configs/override_config.py:27 | `key in dict`: finds the first entry holding the key, and finds nothing exactly when the key is absent |
| ConfigTree.Get | ml_utilities/configs/build_from_config.py:46 | `dict[key]`: a value is found exactly when the key is present, and it is the value stored under that key |
| ConfigTree.Position | ml_utilities/configs/build_from_config.py:49 | where `options[choice]` reads: a dict gives KeyError of the key exactly when the key is absent; a list or tuple accepts an int in `[-n, n)` with negative indices counted from the end, gives IndexError outside that range, and TypeError for a non-int key; any other container gives TypeError |
| ConfigTree.Subscript | ml_utilities/configs/build_from_config.py:49 | `options[choice]` as a value: a dict yields the value stored under the key, or KeyError of that key when it is absent; a list or tuple yields the element an int index names, counting from the end when negative, IndexError outside `[-n, n)` and TypeError for a non-int index; any other value gives TypeError |
| Overrides.OverridePath | ml_utilities/configs/override_config.py:27-33 | an empty path gives IndexError (`node[0]`), and a first key missing from the top-level dict gives ValueError; the override succeeds exactly when the path leads to a value through dictionaries; afterwards the path reads the new value and the top-level keys are unchanged |
| Overrides.OverrideNode | ml_utilities/configs/override_config.py:24-33 | a node that is not a list or tuple gives ValueError; it succeeds exactly when the node is a non-empty path present in the config, and afterwards the path holds the value |
| Overrides.OverrideConfig | ml_utilities/configs/override_config.py:36-51 | no overrides leave the config alone; a config that is not a dict is never changed; a dict keeps its top-level keys in order; when every override applies, the last one's path reads its value |
| OverrideLaws.OverridePathErrors | ml_utilities/configs/override_config.py:27-33 | a path that is not present fails with TypeError when some prefix of it reaches a value that is not a dict, and otherwise with ValueError, at any depth |
| OverrideLaws.OverrideFrame | ml_utilities/configs/override_config.py:30-33 | an override changes nothing at any path disjoint from its own, in a tree where no dict is reachable by two paths |
| OverrideLaws.OverrideKeepsShape | ml_utilities/configs/override_config.py:30-33 | every dictionary along the path keeps its keys, in order: no key is added or removed |
| OverrideLaws.OverrideWithCurrentValue | ml_utilities/configs/override_config.py:30-33 | writing back the value a path already holds gives the same configuration |
| OverrideLaws.OverrideLastWriteWins | ml_utilities/configs/override_config.py:30-33 | two overrides of the same path act like the second one alone |
| OverrideLaws.OverrideRoundTrip | tests/configs/override_config_test.py:47-57 | overriding a path and then writing its old value back restores the original configuration |
| OverrideConfigLaws.OverrideConfigAppend | ml_utilities/configs/override_config.py:49-51 | applying `a + b` is applying `a` and then, if that raised nothing, `b` to the result |
| OverrideConfigLaws.OverrideConfigFailFast | ml_utilities/configs/override_config.py:49-51 | on an exception there is a position `k`: the overrides before `k` succeed and produce the state left behind, and override `k` raises that exception |
| OverrideConfigLaws.OverrideConfigFrame | ml_utilities/configs/override_config.py:49-51 | a path disjoint from every override's path is unchanged, in a tree where no dict is reachable by two paths |
| OverrideConfigLaws.OverrideConfigIndependent | tests/configs/override_config_test.py:71-90 | overrides with valid, pairwise disjoint paths all succeed, and afterwards each path holds its override's value |
| Sweeps.Alternatives | ml_utilities/configs/sweep.py:24-25 | a list or tuple stands for its elements, and any other value for itself alone |
| Sweeps.Discrete | ml_utilities/configs/sweep.py:22-26 | one set per value, in order; set `i` is the single override of the node with value `i` |
| Sweeps.Pair | ml_utilities/configs/sweep.py:40-43 | the two nested loops produce nothing exactly when one of the sweeps is empty; otherwise the first set is `xs[0] + ys[0]` and the last is the two last sets concatenated |
| Sweeps.ProductOf | ml_utilities/configs/sweep.py:35-44 | the product is empty exactly when some sweep is empty |
| Sweeps.Product | ml_utilities/configs/sweep.py:29-44 | no sweeps gives IndexError (`sweeps[0]`), and one sweep is returned as it is |
| Sweeps.MinLength | ml_utilities/configs/sweep.py:49 | the number of tuples `zip` yields: the length of some sweep, at most every sweep's length, and 0 with no sweeps |
| Sweeps.Concat | ml_utilities/configs/sweep.py:49 | `itertools.chain`: an override occurs in the chain exactly when it occurs in one of the chained sets |
| Sweeps.Zipper | ml_utilities/configs/sweep.py:47-49 | the zip is as long as the shortest sweep; experiment `i` holds exactly the overrides of the `i`-th sets of all sweeps |
| Sweeps.Label | ml_utilities/configs/sweep.py:93 | `node[-1]` of a list or tuple node: an empty node gives IndexError; otherwise it succeeds exactly when the last key is a string, and it is that string |
| Sweeps.Segment | ml_utilities/configs/sweep.py:93-96 | each override's part of a directory name ends with `;` |
| Sweeps.Joined | ml_utilities/configs/sweep.py:92-96 | the segments of a set join exactly when every node's last key is a string, giving at least two characters per override; otherwise the exception is the first failing node's |
| Sweeps.LogDirName | ml_utilities/configs/sweep.py:90-97 | a set names a directory exactly when every node's last key is a string; the name starts with the base and adds at least two characters per override; an empty set names the base itself |
| Sweeps.BuildLogDir | ml_utilities/configs/sweep.py:91-96 | the inner loop produces the base followed by the joined segments of the set, or the first segment's exception |
| Sweeps.AddLogDirSweep | ml_utilities/configs/sweep.py:89-101 | succeeds exactly when every set names a directory. The length is kept. Set `i` is the old set followed by the override of `('key',)` with set `i`'s directory name. Every name starts with the base, and an empty set gets just the base. On failure, the exception comes from the first set that cannot be named |
| Sweeps.JoinedPrefixError | ml_utilities/configs/sweep.py:92-96 | when a prefix of a set cannot be named, the whole set fails with the same exception |
| Sweeps.ZipperPair | ml_utilities/configs/sweep.py:47-49 | zipping two sweeps gives the shorter length, and element `i` is `a[i] + b[i]` |
| SweepLaws.PairLength | ml_utilities/configs/sweep.py:40-43 | the two nested loops produce `len(xs) * len(ys)` sets |
| SweepLaws.PairIndex | ml_utilities/configs/sweep.py:41-43 | the set at position `i * len(ys) + j` is `xs[i] + ys[j]` (row-major order) |
| SweepLaws.PairElement | ml_utilities/configs/sweep.py:41-43 | conversely, the set at any position `k` is `xs[k / len(ys)] + ys[k % len(ys)]` |
| SweepLaws.PairSplit | ml_utilities/configs/sweep.py:41-43 | every set of the pairing is some `xs[i] + ys[j]`, at position `i * len(ys) + j` |
| SweepLaws.ProductLength | ml_utilities/configs/sweep.py:32-33 | the product has `N_0 * N_1 * ... * N_k` sets |
| SweepLaws.ProductStep | ml_utilities/configs/sweep.py:38-43 | the recursive step: position `i * len(rest) + j` holds `sweep_0[i]` followed by element `j` of the product of the rest |
| SweepLaws.RankBound | ml_utilities/configs/sweep.py:32-33 | the mixed-radix rank of a choice of one set per sweep lies within the product's length |
| SweepLaws.ProductHasEveryPick | ml_utilities/configs/sweep.py:29-44 | every choice of one set per sweep appears in the product, concatenated in sweep order, at its mixed-radix rank |
| SweepLaws.ProductOnlyPicks | ml_utilities/configs/sweep.py:29-44 | every set of the product is such a concatenation of one set per sweep |
| SweepLaws.ZipperSingle | ml_utilities/configs/sweep.py:47-49 | zipping one sweep returns that sweep |
| SweepLaws.ConcatAppend | ml_utilities/configs/sweep.py:49 | `itertools.chain` over two lists of sets is the chain of each, concatenated |
| SweepLaws.MinLengthAppend | ml_utilities/configs/sweep.py:49 | the zip length over two groups of sweeps is the smaller of the two groups' zip lengths |
| SweepLaws.ColumnAppend | ml_utilities/configs/sweep.py:49 | the `i`-th tuple over two groups of sweeps is the two groups' `i`-th tuples, concatenated |
| SweepLaws.ZipperAppend | ml_utilities/configs/sweep.py:47-49 | zipping is associative: zipping `xs + ys` equals zipping the zip of `xs` with the zip of `ys` |
| SweepLaws.JoinedEnds | ml_utilities/configs/sweep.py:92-96 | the joined segments are empty exactly for an empty set, and otherwise end with `;` |
| SweepLaws.JoinedOne | ml_utilities/configs/sweep.py:92-96 | the joined name of a single override is its segment |
| SweepLaws.JoinedTwo | ml_utilities/configs/sweep.py:92-96 | the joined name of two overrides is their segments, in order |
| SweepLaws.JoinedInjective | ml_utilities/configs/sweep.py:91-97 | when no segment contains `;` before its end, equal joined names come from sets of equal length with equal segments |
| SweepLaws.LogDirNamesDistinguish | ml_utilities/configs/sweep.py:73-101 | under that condition, two sets that share a base get the same directory name only when their segments are equal |
| SweepLaws.LogDirCollisionRendering | ml_utilities/configs/sweep.py:95 | without that condition names collide: when `str` renders `1` and `'1'` alike, the two values give the same directory name |
| SweepLaws.LogDirCollisionSeparator | ml_utilities/configs/sweep.py:93-96 | a value `'1;a_2'` gives the same directory name as a second override `a = 2` after `a = 1` |
| SweepApplication.DiscreteApplies | ml_utilities/configs/sweep.py:22-26 | applying experiment `i` of `discrete(node, values)` sets the node to value `i` without error and leaves disjoint paths alone |
| SweepApplication.ApplyTwo | ml_utilities/configs/override_config.py:49-51 | two overrides of disjoint settable nodes both take effect |
| SweepApplication.ProductOfTwo | ml_utilities/configs/sweep.py:35-44 | the product of two sweeps is the two nested loops over them |
| SweepApplication.DiscreteGrid | ml_utilities/configs/sweep.py:29-44 | for two discrete sweeps over disjoint nodes, every pair of values `(i, j)` has an experiment in the product, at position `i * len(v2) + j`, and applying it sets the first node to value `i` and the second to value `j` without error: the first node varies slowest |
| SweepApplication.DiscreteZip | ml_utilities/configs/sweep.py:47-49 | the zip of two discrete sweeps over disjoint nodes sets both nodes to their `i`-th values in experiment `i` |
| Construction.Build | ml_utilities/configs/build_from_config.py:56-57 | anything that is not a list, tuple or dict is returned unchanged |
| Construction.BuildDict | ml_utilities/configs/build_from_config.py:29-55 | a dict with `constructor` builds to a call with string keyword names; else, with `module`, an exception raised by the import is raised unchanged; else, with `choice` and no `options`, KeyError of `options`; a dict with none of the three builds to a dict with the same number of entries |
| Construction.ArgsOf | ml_utilities/configs/build_from_config.py:33-36 | no `args` gives no positional arguments; `args` that is not a list or tuple gives TypeError; otherwise there is one argument per element |
| Construction.KwargsOf | ml_utilities/configs/build_from_config.py:37-41 | no `kwargs` gives no keyword arguments; `kwargs` that is not a dict gives AttributeError; otherwise there is one keyword argument per entry |
| Construction.BuildArgs | ml_utilities/configs/build_from_config.py:34 | only a list or tuple is iterated, otherwise TypeError; the result has one argument per element |
| Construction.BuildKwargs | ml_utilities/configs/build_from_config.py:38-39 | only a dict has `.items()`, otherwise AttributeError; the result has one keyword argument per entry |
| Construction.BuildItems | ml_utilities/configs/build_from_config.py:26 | the list comprehension keeps the length |
| Construction.BuildEntries | ml_utilities/configs/build_from_config.py:51-55 | building a dictionary's values keeps its keys, in order, and its length |
| ConstructionLaws.BuildItemsSpec | ml_utilities/configs/build_from_config.py:26 | building elements succeeds exactly when every element builds; element `i` of the result is built from element `i`; a failure is the first failing element's |
| ConstructionLaws.BuildEntriesSpec | ml_utilities/configs/build_from_config.py:51-55 | the same for dictionary values, with the keys kept |
| ConstructionLaws.BuildSequence | ml_utilities/configs/build_from_config.py:25-28 | a list builds to a list and a tuple to a tuple, of the same length, each element built from the one at the same position |
| ConstructionLaws.BuildPlainDict | ml_utilities/configs/build_from_config.py:50-55 | a dictionary with no reserved key builds to a dictionary with the same keys in the same order, each value built |
| ConstructionLaws.BuildConstructorForm | ml_utilities/configs/build_from_config.py:30-43 | `constructor` takes precedence over every other key. The constructor, then the args, then the kwargs are built, and the first failure wins. Keyword names must be strings. The result is the call |
| ConstructionLaws.ArgsOfSpec | ml_utilities/configs/build_from_config.py:33-36 | with no `args` there are no positional arguments; otherwise `args` is a list or tuple and each argument is built from the element at its position |
| ConstructionLaws.KwargsOfSpec | ml_utilities/configs/build_from_config.py:37-41 | with no `kwargs` there are no keyword arguments; otherwise `kwargs` is a dict, its keys are kept in order, and each value is built |
| ConstructionLaws.BuildModuleForm | ml_utilities/configs/build_from_config.py:44-47 | without `constructor`, `module` imports the module and passes on any exception the import raises; then a missing `method` gives KeyError; otherwise the result is exactly what `getattr` returns or raises, and the attribute is not called |
| ConstructionLaws.BuildChoiceForm | ml_utilities/configs/build_from_config.py:48-49 | without `constructor` or `module`: `choice` without `options` gives KeyError; otherwise the result is the built option that `choice` selects, or the subscription's error, which for a dict of options without the chosen key is KeyError of that key |
| ConstructionLaws.ChoiceIgnoresOtherOptions | ml_utilities/configs/build_from_config.py:49 | options that are not chosen are never built: changing one does not change the result |
| ConstructionLaws.SubscriptIgnoresOthers | ml_utilities/configs/build_from_config.py:49 | `options[choice]` does not depend on the value stored under any other key |
| ConstructionLaws.BuildInert | ml_utilities/configs/build_from_config.py:25-57 | a tree without reserved keys is built to itself |
| ConstructionLaws.BuildYieldsInert | ml_utilities/configs/build_from_config.py:25-57 | when attribute lookups yield inert values, every build result is inert |
| ConstructionLaws.BuildIdempotent | ml_utilities/configs/build_from_config.py:25-57 | under the same condition, building a result again returns it unchanged |
| LegacyConstruction.LegacyBuild | src/configs/build_from_config.py:26-46 | a non-dict, and a dict without `constructor`, are returned as they are; a successful constructor form is a call of the raw constructor with string keyword names |
| LegacyConstruction.LegacyBuildForm | src/configs/build_from_config.py:34-46 | the constructor is used as it is, not built |
| LegacyConstruction.LegacyArgsOf | src/configs/build_from_config.py:37-40 | no `args` gives no positional arguments; `args` that is not a list or tuple gives TypeError; otherwise there is one argument per element |
| LegacyConstruction.LegacyKwargsOf | src/configs/build_from_config.py:41-44 | no `kwargs` gives no keyword arguments; `kwargs` that is not a dict gives AttributeError; otherwise there is one keyword argument per entry |
| LegacyConstruction.LegacyBuildItems | src/configs/build_from_config.py:38 | the comprehension keeps the length |
| LegacyConstruction.LegacyBuildEntries | src/configs/build_from_config.py:42 | building the keyword values keeps the keys, in order, and the length |
| LegacyConstructionLaws.LegacyItemsSpec | src/configs/build_from_config.py:38 | arguments succeed exactly when every element builds, each from the element at its position |
| LegacyConstructionLaws.LegacyEntriesSpec | src/configs/build_from_config.py:42 | keyword values succeed exactly when each one builds, each from the value at its position |
| LegacyConstructionLaws.LegacyConstructorEquation | src/configs/build_from_config.py:34-46 | args are built before kwargs, the first failure wins, and keyword names must be strings |
| LegacyConstructionLaws.LegacyArgsOfSpec | src/configs/build_from_config.py:37-40 | with no `args` there are no positional arguments; otherwise `args` is a list or tuple, built element by element |
| LegacyConstructionLaws.LegacyKwargsOfSpec | src/configs/build_from_config.py:41-44 | with no `kwargs` there are no keyword arguments; otherwise `kwargs` is a dict, its keys are kept and its values built |
| LegacyConstructionLaws.ItemsAgree | src/configs/build_from_config.py:38 | where the two engines agree on every element, they agree on the whole argument list |
| LegacyConstructionLaws.EntriesAgree | src/configs/build_from_config.py:42 | where the two engines agree on every value, they agree on the keyword arguments |
| LegacyConstructionLaws.EnginesAgreeOnClassic | src/configs/build_from_config.py:18-21 | on the configurations both docstrings describe, the two engines give the same result under every resolver: constructor forms with inert constructors and nested arguments of the same kind, or trees without reserved keys |
| LegacyConstructionLaws.EnginesDiverge | src/configs/build_from_config.py:26-36 | the engines differ on a constructor form inside a plain dict or a list, and on one in constructor position: the newer engine builds each, and the older one leaves them verbatim |

## Left out

- `write` (`ml_utilities/configs/sweep.py:52-70`) is not modelled. It is file
  output and JSON serialisation.
- `override_config_from_json` (`ml_utilities/configs/override_config.py:54-61`)
  is not modelled. It is JSON parsing and printing in front of
  `override_config`.
- Logging is left out. It does not change any result.
- `tf.name_scope(k)` (`ml_utilities/configs/build_from_config.py:53`) is
  left out. TensorFlow rejects some names: TensorFlow 2 raises ValueError for
  a key that is not a string, and graph mode also rejects strings that are
  not valid scope names. The model builds every plain dict whatever its
  keys, so `Construction.Build` succeeds on `{42: 1}` where Python may raise.
  The TensorFlow version is not fixed by the library.
- Calling a constructor is not modelled. The call is kept symbolic as
  `Instance`. Whether the constructor is callable, and any exception the call
  raises, are outside the model.
- BuildYieldsInert (`ConstructionLaws`): holds only because a constructor
  call is a symbolic `Instance`, which holds no reserved keys. A Python
  constructor can return a container. With `dict` as the constructor and
  kwargs `{'choice': 'a', 'options': {'a': 1}}`, the result is a dict with
  reserved keys.
- BuildIdempotent (`ConstructionLaws`): fails in Python for the same reason.
  The example above builds to `{'choice': 'a', 'options': {'a': 1}}`, and
  building that again gives `1`. The model promises idempotence only for
  constructors whose results, like `Instance`, hold no reserved keys.
- `importlib.import_module` and `getattr` are parameters (`Resolver`).
  Each returns a value or raises an exception of the model's `Error` kinds,
  and building passes that exception on unchanged. Whatever they do is
  taken as given, including Python's TypeError from `getattr` for a
  `method` that is not a string and ValueError from `import_module('')`.
  An exception kind outside `Error` is not modelled.
- `str()` of an override value is a parameter (`show`).
  `SweepLaws.LogDirCollisionRendering` and
  `SweepLaws.LogDirCollisionSeparator` assume only the renderings of their
  example values.
- Python dictionaries are mutable objects, and one dict object can sit
  under two keys, as in `s = {'x': 0}; config = {'a': s, 'b': s}`. The
  override at `ml_utilities/configs/override_config.py:31` then writes through every path that
  reaches the shared dict. The model's trees are values, and a write through
  one path never shows through another. The laws below are stated for
  configurations in which no dict is reachable by two paths. That condition
  is not a precondition in the Dafny, because the model cannot express
  sharing.
- OverrideFrame (`OverrideLaws`): does not hold under aliasing. Overriding
  `('a', 'x')` in the example above also changes `('b', 'x')` in Python.
- OverrideConfigFrame (`OverrideConfigLaws`): does not hold under aliasing,
  for the same reason.
- OverrideConfigIndependent (`OverrideConfigLaws`): does not hold under
  aliasing. Overrides `('a', 'x') = 1` and then `('b', 'x') = 2` leave
  `('a', 'x')` reading 2 in Python, not 1.
- DiscreteApplies (`SweepApplication`): the clause about disjoint paths
  does not hold under aliasing.
- ApplyTwo (`SweepApplication`): does not hold under aliasing. Two disjoint
  nodes through a shared dict name one slot, and only the later write is
  seen.
- DiscreteGrid (`SweepApplication`): rests on ApplyTwo, so it does not hold
  under aliasing either.
- DiscreteZip (`SweepApplication`): rests on ApplyTwo, so it does not hold
  under aliasing either.
- Deep and shallow copies (`copy.deepcopy`, `copy.copy`) are not modelled.
  Dafny values are immutable, so a copy is the value itself.
- `zipper` truncates to the shortest sweep, like `zip`. Its docstring says
  the sweeps should have equal length, and one could expect mismatched
  lengths to be rejected. The code does not check this, and the model
  follows the code.
- `add_log_dir_sweep` ignores its `key` argument and always writes the node
  `('key',)`. The model follows the code. `log_dir_base` is modelled as a
  string only.
- Sweeps.Label: a node that is neither a string, a list, a tuple nor a dict
  gives TypeError. Python would also subscript other sequence types.
- Overrides.OverridePath: any value that is not a dict gives TypeError when
  the walk meets it. That includes the top-level config, and lists, tuples
  and strings met anywhere on the walk. For such a value, Python's
  `node[0] in config` tests element or substring membership instead. It
  raises ValueError when that test fails. When a list or tuple happens to
  contain the key as an element, Python indexes it with that key, which can
  succeed. For example, `{'a': (1, {'b': 0})}` with the path `('a', 1, 'b')`
  is overridden in Python. So is a top-level list:
  `override_config([0, 1], [{'node': (1,), 'value': 9}])` leaves `[0, 9]`.
  The model gives TypeError in the first case and leaves `[0, 1]` in the
  second.
- Overrides.OverrideConfig: each override is modelled as a well-formed
  record of a node and a value. Python unpacks an override with
  `override_config_node(config, **x)`. That raises TypeError when `x` is not
  a mapping, lacks `node` or `value`, or has another key. The model has no
  such override, so OverrideConfigFailFast does not cover these
  exceptions.
- Sweeps.Joined and Sweeps.LogDirName: `var['node']` and `var['value']`
  (`ml_utilities/configs/sweep.py:93-95`) raise KeyError for an override
  without those keys. Overrides are well-formed records in the model, so
  this KeyError is not modelled.
- OverridePathErrors (`OverrideLaws`): its TypeError for a walk that meets
  a list or string follows the model's OverridePath. Python's outcome
  there is described in the line above.
- Python's equality of dictionary keys across types is not modelled. For
  example, `1 == True` and `1 == 1.0` make these the same key in Python.
  Keys are compared structurally.
- Python's hashing is not modelled. A key that is a list or a dict cannot
  be hashed, so Python raises TypeError when one is looked up:
  `node[0] in config` (`ml_utilities/configs/override_config.py:27`) and
  `x['options'][x['choice']]` (`ml_utilities/configs/build_from_config.py:49`).
  The model compares such a key structurally instead. It gives ValueError
  for a missing path element and KeyError for a missing choice, and it
  finds the key when an equal one is present.
- Construction.Build: in both engines, `args` that is neither a list nor a
  tuple gives TypeError. Python would also iterate a string, a set or a dict's keys.
  `kwargs` that is not a dict gives AttributeError.
- Construction.ArgsOf, Construction.BuildArgs and
  LegacyConstruction.LegacyArgsOf: TypeError for `args` that is not a list
  or tuple, as in the line above.
- Construction.Build: `options` that is not a dict, list or tuple gives
  TypeError. Python would also subscript a string. A bool used as a list
  index is treated as a non-int key.
- Construction.BuildDict: for a plain dict the contract gives the number of
  entries only. That the keys are kept in order and each value is built is
  stated by ConstructionLaws.BuildPlainDict.
- Construction.KwargsOf and Construction.BuildKwargs: the contracts give the
  number of keyword arguments only. The keys and values are stated by
  ConstructionLaws.KwargsOfSpec and ConstructionLaws.BuildEntriesSpec.
- LegacyConstruction.LegacyKwargsOf: the contract gives the number of
  keyword arguments only. The keys and values are stated by
  LegacyConstructionLaws.LegacyKwargsOfSpec.
- Sweeps.ProductOf: the contract says only when the product is empty. Its
  contents are stated by SweepLaws.ProductOnlyPicks and
  SweepLaws.ProductHasEveryPick.
- ConfigTree.Position and ConfigTree.Subscript: a bool index into a list or
  tuple gives TypeError. Python treats `True` as index 1 and `False` as 0.
- Sets are opaque values (`Opaque`). Building never looks inside them, as
  the Python code does not.
