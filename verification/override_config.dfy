/**
 * The override engine: replacing the value at the end of a key path in a
 * nested dictionary, and applying a list of such overrides in order.
 *
 * Python mutates the configuration in place; the model returns the mutated
 * configuration instead. A failing override mutates nothing, and a failing
 * list of overrides keeps the overrides that came before the failure.
 */
module Overrides {
  import opened Wrappers
  import opened ConfigTree

  /** The value reached by walking `path` through nested dictionaries; the
      empty path reaches the whole tree. */
  function At(c: Value, path: seq<Value>): Option<Value>
    decreases |path|
  {
    if |path| == 0 then Some(c)
    else if !c.Dict? then None
    else match Find(c.entries, path[0])
      case None => None
      case Some(i) => At(c.entries[i].value, path[1..])
  }

  /** Paths that address disjoint parts of a tree: neither is a prefix of the other. */
  predicate Disjoint(p: seq<Value>, q: seq<Value>) {
    !(p <= q) && !(q <= p)
  }

  /** Two optional trees that are dictionaries with the same keys in the same order. */
  predicate SameKeys(a: Option<Value>, b: Option<Value>) {
    a.Some? && b.Some? && a.value.Dict? && b.value.Dict? &&
    Keys(a.value.entries) == Keys(b.value.entries)
  }

  /** `override_config_node` once the path is known to be a list or tuple:
      every key must already be present, the last one's value is replaced,
      and nothing is mutated when a key is missing. */
  function OverridePath(config: Value, path: seq<Value>, value: Value): (r: Result<Value, Error>)
    decreases |path|
    ensures |path| == 0 ==> r == Err(IndexError)
    ensures r.Ok? <==> |path| > 0 && At(config, path).Some?
    ensures r.Ok? ==> At(r.value, path) == Some(value)
    ensures r.Ok? ==> r.value.Dict? && config.Dict? && Keys(r.value.entries) == Keys(config.entries)
    ensures |path| > 0 && config.Dict? && path[0] !in Keys(config.entries) ==> r == Err(ValueError)
    ensures r.Err? && |path| > 0 ==> r.error == ValueError || r.error == TypeError
  {
    if |path| == 0 then Err(IndexError)
    else if !config.Dict? then Err(TypeError)
    else match Find(config.entries, path[0])
      case None => Err(ValueError)
      case Some(i) =>
        var e := config.entries[i];
        if |path| == 1 then
          var entries := config.entries[i := e.(value := value)];
          assert Keys(entries) == Keys(config.entries);
          FindSameKeys(entries, config.entries, path[0]);
          Ok(Dict(entries))
        else
          var child :- OverridePath(e.value, path[1..], value);
          var entries := config.entries[i := e.(value := child)];
          assert Keys(entries) == Keys(config.entries);
          FindSameKeys(entries, config.entries, path[0]);
          Ok(Dict(entries))
  }

  /** `override_config_node(config, node, value)`: the node must be a list or
      a tuple of keys. */
  function OverrideNode(config: Value, node: Value, value: Value): (r: Result<Value, Error>)
    ensures !IsSequence(node) ==> r == Err(ValueError)
    ensures r.Ok? <==> IsSequence(node) && |node.items| > 0 && At(config, node.items).Some?
    ensures r.Ok? ==> At(r.value, node.items) == Some(value)
  {
    if !IsSequence(node) then Err(ValueError)
    else OverridePath(config, node.items, value)
  }

  /** The state `override_config` leaves behind: the configuration as mutated
      so far, and the exception that stopped it, if one did. */
  datatype Applied = Applied(config: Value, error: Option<Error>)

  /** `override_config(config, overrides)`: each override in list order,
      stopping at the first that raises. */
  function OverrideConfig(config: Value, overrides: seq<Override>): (r: Applied)
    decreases |overrides|
    ensures |overrides| == 0 ==> r == Applied(config, None)
    ensures !config.Dict? ==> r.config == config
    ensures config.Dict? ==> r.config.Dict? && Keys(r.config.entries) == Keys(config.entries)
    ensures r.error.None? && |overrides| > 0 ==>
              var last := overrides[|overrides| - 1];
              IsSequence(last.node) && At(r.config, last.node.items) == Some(last.value)
  {
    if |overrides| == 0 then Applied(config, None)
    else match OverrideNode(config, overrides[0].node, overrides[0].value)
      case Err(e) => Applied(config, Some(e))
      case Ok(next) =>
        assert |overrides| > 1 ==> overrides[1..][|overrides| - 2] == overrides[|overrides| - 1];
        OverrideConfig(next, overrides[1..])
  }
}

module OverrideLaws {
  import opened Wrappers
  import opened ConfigTree
  import opened Overrides

  /** An override touches only the addressed path: every path disjoint from
      it reaches the same value (or the same absence) afterwards. */
  lemma {:induction false} OverrideFrame(c: Value, p: seq<Value>, v: Value, q: seq<Value>)
    requires |p| > 0 && At(c, p).Some?
    requires Disjoint(p, q)
    ensures At(OverridePath(c, p, v).value, q) == At(c, q)
    decreases |p|
  {
    var c' := OverridePath(c, p, v).value;
    var i := Find(c.entries, p[0]).value;
    var j := Find(c.entries, q[0]);
    FindSameKeys(c'.entries, c.entries, q[0]);
    FindSameKeys(c'.entries, c.entries, p[0]);
    if j.Some? && j.value == i {
      assert p[0] == q[0];
      OverrideFrame(c.entries[i].value, p[1..], v, q[1..]);
    }
  }

  /** No key is added or removed anywhere along the overridden path: each
      dictionary the path walks through keeps its keys, in order. */
  lemma {:induction false} OverrideKeepsShape(c: Value, p: seq<Value>, v: Value, k: nat)
    requires |p| > 0 && At(c, p).Some?
    requires k < |p|
    ensures SameKeys(At(c, p[..k]), At(OverridePath(c, p, v).value, p[..k]))
    decreases |p|
  {
    var c' := OverridePath(c, p, v).value;
    if k > 0 {
      var i := Find(c.entries, p[0]).value;
      FindSameKeys(c'.entries, c.entries, p[0]);
      assert p[..k][1..] == p[1..][..k - 1];
      OverrideKeepsShape(c.entries[i].value, p[1..], v, k - 1);
    }
  }

  /** Writing back the value a path already holds changes nothing. */
  lemma {:induction false} OverrideWithCurrentValue(c: Value, p: seq<Value>)
    requires |p| > 0 && At(c, p).Some?
    ensures OverridePath(c, p, At(c, p).value) == Ok(c)
    decreases |p|
  {
    var i := Find(c.entries, p[0]).value;
    var e := c.entries[i];
    if |p| > 1 {
      OverrideWithCurrentValue(e.value, p[1..]);
    }
    assert c.entries[i := e] == c.entries;
  }

  /** A walk that is blocked somewhere on the path: a prefix of it reaches
      a value that is not a dictionary. */
  predicate Blocked(c: Value, p: seq<Value>) {
    exists k :: 0 <= k < |p| && At(c, p[..k]).Some? && !At(c, p[..k]).value.Dict?
  }

  /** Reading a prefix longer than the first key through `c` is reading the
      rest of that prefix through the value under the first key. */
  lemma AtPrefix(c: Value, p: seq<Value>, i: nat, k: nat)
    requires c.Dict? && |p| > 0 && Find(c.entries, p[0]) == Some(i)
    requires 1 <= k <= |p|
    ensures At(c, p[..k]) == At(c.entries[i].value, p[1..][..k - 1])
  {
    assert p[..k][0] == p[0];
    assert p[..k][1..] == p[1..][..k - 1];
  }

  /** The kind of exception a failing override raises: `TypeError` when the
      walk meets a value that is not a dictionary before the last key, and
      otherwise `ValueError`, because some dictionary on the way lacks the
      next key. */
  lemma {:induction false} OverridePathErrors(c: Value, p: seq<Value>, v: Value)
    requires |p| > 0 && At(c, p).None?
    ensures OverridePath(c, p, v) == Err(if Blocked(c, p) then TypeError else ValueError)
    decreases |p|
  {
    assert p[..0] == [];
    if !c.Dict? {
      assert At(c, p[..0]) == Some(c);
    } else {
      match Find(c.entries, p[0])
      case None =>
        forall k | 0 < k < |p|
          ensures At(c, p[..k]).None?
        {
          assert p[..k][0] == p[0];
        }
      case Some(i) =>
        var child := c.entries[i].value;
        assert |p| > 1;
        OverridePathErrors(child, p[1..], v);
        if Blocked(child, p[1..]) {
          var k :| 0 <= k < |p[1..]| && At(child, p[1..][..k]).Some? && !At(child, p[1..][..k]).value.Dict?;
          AtPrefix(c, p, i, k + 1);
        } else {
          forall k | 1 <= k < |p| && At(c, p[..k]).Some?
            ensures At(c, p[..k]).value.Dict?
          {
            AtPrefix(c, p, i, k);
          }
        }
    }
  }

  /** One step of a successful override: the entry under the first key
      gets the value, or the override of the rest of the path in its value. */
  lemma OverrideStep(c: Value, p: seq<Value>, v: Value)
    requires |p| > 0 && At(c, p).Some?
    ensures c.Dict? && Find(c.entries, p[0]).Some?
    ensures |p| > 1 ==> At(c.entries[Find(c.entries, p[0]).value].value, p[1..]).Some?
    ensures var i := Find(c.entries, p[0]).value;
            var inner := if |p| == 1 then v else OverridePath(c.entries[i].value, p[1..], v).value;
            OverridePath(c, p, v) == Ok(Dict(c.entries[i := Entry(p[0], inner)]))
  {
  }

  /** The last write to a path wins: a second override of the same path
      undoes all trace of the first. */
  lemma {:induction false} OverrideLastWriteWins(c: Value, p: seq<Value>, v: Value, w: Value)
    requires |p| > 0 && At(c, p).Some?
    ensures OverridePath(OverridePath(c, p, v).value, p, w) == OverridePath(c, p, w)
    decreases |p|
  {
    OverrideStep(c, p, v);
    OverrideStep(c, p, w);
    var i := Find(c.entries, p[0]).value;
    var c' := OverridePath(c, p, v).value;
    FindSameKeys(c'.entries, c.entries, p[0]);
    OverrideStep(c', p, w);
    var e := c.entries[i];
    if |p| > 1 {
      assert c'.entries[i].value == OverridePath(e.value, p[1..], v).value;
      OverrideLastWriteWins(e.value, p[1..], v, w);
    }
    var inner := if |p| == 1 then w else OverridePath(e.value, p[1..], w).value;
    assert c'.entries[i := Entry(p[0], inner)] == c.entries[i := Entry(p[0], inner)];
  }

  /** Overriding a path and then writing its old value back restores the
      original configuration exactly. */
  lemma OverrideRoundTrip(c: Value, p: seq<Value>, v: Value)
    requires |p| > 0 && At(c, p).Some?
    ensures OverridePath(OverridePath(c, p, v).value, p, At(c, p).value) == Ok(c)
  {
    OverrideLastWriteWins(c, p, v, At(c, p).value);
    OverrideWithCurrentValue(c, p);
  }
}

module OverrideConfigLaws {
  import opened Wrappers
  import opened ConfigTree
  import opened Overrides
  import opened OverrideLaws

  /** The key path of an override, when its node is a list or tuple. */
  function PathOf(o: Override): seq<Value> {
    if IsSequence(o.node) then o.node.items else []
  }

  /** An override that `override_config_node` accepts on `c`. */
  predicate ValidIn(c: Value, o: Override) {
    IsSequence(o.node) && |o.node.items| > 0 && At(c, o.node.items).Some?
  }

  /** Applying a list of overrides in two parts is applying it whole: the
      second part runs on the result of the first, unless the first failed. */
  lemma {:induction false} OverrideConfigAppend(c: Value, a: seq<Override>, b: seq<Override>)
    ensures OverrideConfig(c, a + b) ==
              (var r := OverrideConfig(c, a); if r.error.None? then OverrideConfig(r.config, b) else r)
    decreases |a|
  {
    if |a| == 0 {
      assert a + b == b;
    } else {
      assert (a + b)[0] == a[0];
      assert (a + b)[1..] == a[1..] + b;
      match OverrideNode(c, a[0].node, a[0].value)
      case Err(e) =>
        assert OverrideConfig(c, a + b) == Applied(c, Some(e));
      case Ok(next) =>
        assert OverrideConfig(c, a + b) == OverrideConfig(next, a[1..] + b);
        assert OverrideConfig(c, a) == OverrideConfig(next, a[1..]);
        OverrideConfigAppend(next, a[1..], b);
    }
  }

  /** Overrides are not applied all-or-nothing: when one raises, the
      configuration holds exactly the overrides before it, and that one
      raises on it. */
  lemma {:induction false} OverrideConfigFailFast(c: Value, os: seq<Override>)
    requires OverrideConfig(c, os).error.Some?
    ensures var r := OverrideConfig(c, os);
            exists k :: 0 <= k < |os| &&
              OverrideConfig(c, os[..k]) == Applied(r.config, None) &&
              OverrideNode(r.config, os[k].node, os[k].value) == Err(r.error.value)
    decreases |os|
  {
    var r := OverrideConfig(c, os);
    match OverrideNode(c, os[0].node, os[0].value)
    case Err(e) =>
      assert os[..0] == [];
      assert OverrideConfig(c, os[..0]) == Applied(r.config, None);
    case Ok(next) =>
      OverrideConfigFailFast(next, os[1..]);
      var k :| 0 <= k < |os[1..]| &&
        OverrideConfig(next, os[1..][..k]) == Applied(r.config, None) &&
        OverrideNode(r.config, os[1..][k].node, os[1..][k].value) == Err(r.error.value);
      PrefixStep(c, os, k, next);
      assert os[1..][k] == os[k + 1];
  }

  /** The first `k + 1` overrides, when the first applies, are the next `k`
      applied to its result. */
  lemma PrefixStep(c: Value, os: seq<Override>, k: nat, next: Value)
    requires k < |os| && OverrideNode(c, os[0].node, os[0].value) == Ok(next)
    ensures OverrideConfig(c, os[..k + 1]) == OverrideConfig(next, os[1..][..k])
  {
    assert os[..k + 1][0] == os[0];
    assert os[..k + 1][1..] == os[1..][..k];
  }

  /** Overrides of paths disjoint from `q` leave the value at `q` alone. */
  lemma {:induction false} OverrideConfigFrame(c: Value, os: seq<Override>, q: seq<Value>)
    requires OverrideConfig(c, os).error.None?
    requires forall k :: 0 <= k < |os| ==> Disjoint(PathOf(os[k]), q)
    ensures At(OverrideConfig(c, os).config, q) == At(c, q)
    decreases |os|
  {
    if |os| > 0 {
      var next := OverrideNode(c, os[0].node, os[0].value).value;
      OverrideFrame(c, os[0].node.items, os[0].value, q);
      assert forall k :: 0 <= k < |os[1..]| ==> os[1..][k] == os[k + 1];
      OverrideConfigFrame(next, os[1..], q);
    }
  }

  /** Overrides of valid, pairwise disjoint paths all succeed, and afterwards
      every path holds the value its override gave it. */
  lemma {:induction false} OverrideConfigIndependent(c: Value, os: seq<Override>)
    requires forall k :: 0 <= k < |os| ==> ValidIn(c, os[k])
    requires forall i, j :: 0 <= i < j < |os| ==> Disjoint(PathOf(os[i]), PathOf(os[j]))
    ensures OverrideConfig(c, os).error.None?
    ensures forall k :: 0 <= k < |os| ==>
              At(OverrideConfig(c, os).config, PathOf(os[k])) == Some(os[k].value)
    decreases |os|
  {
    if |os| > 0 {
      var p := PathOf(os[0]);
      var next := OverrideNode(c, os[0].node, os[0].value).value;
      var rest := os[1..];
      forall k | 0 <= k < |rest|
        ensures ValidIn(next, rest[k])
      {
        assert rest[k] == os[k + 1];
        OverrideFrame(c, p, os[0].value, PathOf(rest[k]));
      }
      forall i, j | 0 <= i < j < |rest|
        ensures Disjoint(PathOf(rest[i]), PathOf(rest[j]))
      {
        assert rest[i] == os[i + 1] && rest[j] == os[j + 1];
      }
      OverrideConfigIndependent(next, rest);
      var final := OverrideConfig(next, rest).config;
      forall k | 0 <= k < |rest|
        ensures Disjoint(PathOf(rest[k]), p)
      {
        assert rest[k] == os[k + 1];
      }
      OverrideConfigFrame(next, rest, p);
      forall k | 0 <= k < |os|
        ensures At(final, PathOf(os[k])) == Some(os[k].value)
      {
        if k > 0 {
          assert os[k] == rest[k - 1];
        }
      }
    }
  }
}
