/**
 * Sweeps and overrides together: what the configuration of one experiment
 * looks like once `override_config` has applied that experiment's set.
 */
module SweepApplication {
  import opened Wrappers
  import opened ConfigTree
  import opened Overrides
  import opened OverrideLaws
  import opened OverrideConfigLaws
  import opened Sweeps
  import opened SweepLaws

  /** A node `override_config_node` accepts on `c`. */
  predicate Settable(c: Value, node: Value) {
    IsSequence(node) && |node.items| > 0 && At(c, node.items).Some?
  }

  /** Experiment `i` of `discrete(node, values)` sets the node to the
      `i`-th value without error and leaves every disjoint path alone. */
  lemma DiscreteApplies(c: Value, node: Value, values: Value, i: nat, q: seq<Value>)
    requires Settable(c, node)
    requires i < |Alternatives(values)|
    ensures var a := OverrideConfig(c, Discrete(node, values)[i]);
            a.error.None? && At(a.config, node.items) == Some(Alternatives(values)[i])
    ensures Disjoint(node.items, q) ==> At(OverrideConfig(c, Discrete(node, values)[i]).config, q) == At(c, q)
  {
    var os := [Override(node, Alternatives(values)[i])];
    assert Discrete(node, values)[i] == os;
    OverrideConfigIndependent(c, os);
    if Disjoint(node.items, q) {
      OverrideConfigFrame(c, os, q);
    }
  }

  /** Two overrides on disjoint settable nodes both take effect, in
      either order of the two nodes. */
  lemma ApplyTwo(c: Value, n1: Value, x: Value, n2: Value, y: Value)
    requires Settable(c, n1) && Settable(c, n2) && Disjoint(n1.items, n2.items)
    ensures var a := OverrideConfig(c, [Override(n1, x), Override(n2, y)]);
            && a.error.None?
            && At(a.config, n1.items) == Some(x)
            && At(a.config, n2.items) == Some(y)
  {
    var o1, o2 := Override(n1, x), Override(n2, y);
    var c1 := OverrideNode(c, n1, x).value;
    OverrideFrame(c, n1.items, x, n2.items);
    var c2 := OverrideNode(c1, n2, y).value;
    OverrideFrame(c1, n2.items, y, n1.items);
    assert [o1, o2][1..] == [o2];
    assert OverrideConfig(c, [o1, o2]) == OverrideConfig(c1, [o2]);
    assert OverrideConfig(c1, [o2]) == OverrideConfig(c2, []);
  }

  /** Row-major position `i * n + j` of cell `(i, j)` in a grid of rows of `n`. */
  function GridPosition(i: nat, j: nat, n: nat): nat {
    i * n + j
  }

  /** The product of two sweeps is their pairing. */
  lemma ProductOfTwo(d1: Sweep, d2: Sweep)
    ensures Product([d1, d2]) == Ok(Pair(d1, d2))
  {
    assert [d1, d2][1..] == [d2];
    assert ProductOf([d2]) == d2;
    assert ProductOf([d1, d2]) == Pair(d1, d2);
  }

  /** The grid `product(discrete(n1, v1), discrete(n2, v2))` over two
      disjoint nodes has one experiment per pair of values: experiment
      `i * |v2| + j` sets the first node to value `i` and the second to
      value `j`, so the first node varies slowest. */
  lemma DiscreteGrid(c: Value, n1: Value, v1: Value, n2: Value, v2: Value, i: nat, j: nat)
    requires Settable(c, n1) && Settable(c, n2) && Disjoint(n1.items, n2.items)
    requires i < |Alternatives(v1)| && j < |Alternatives(v2)|
    ensures var g := Product([Discrete(n1, v1), Discrete(n2, v2)]);
            var k := GridPosition(i, j, |Alternatives(v2)|);
            g.Ok? && k < |g.value| &&
            var a := OverrideConfig(c, g.value[k]);
            && a.error.None?
            && At(a.config, n1.items) == Some(Alternatives(v1)[i])
            && At(a.config, n2.items) == Some(Alternatives(v2)[j])
  {
    var d1, d2 := Discrete(n1, v1), Discrete(n2, v2);
    var x, y := Alternatives(v1)[i], Alternatives(v2)[j];
    ProductOfTwo(d1, d2);
    var k := GridPosition(i, j, |d2|);
    PairIndex(d1, d2, i, j);
    assert d1[i] == [Override(n1, x)] && d2[j] == [Override(n2, y)];
    assert Pair(d1, d2)[k] == [Override(n1, x), Override(n2, y)];
    ApplyTwo(c, n1, x, n2, y);
  }

  /** The zip `zipper(discrete(n1, v1), discrete(n2, v2))` over two
      disjoint nodes: experiment `i` sets both nodes to their `i`-th values,
      for `i` below the shorter of the two. */
  lemma DiscreteZip(c: Value, n1: Value, v1: Value, n2: Value, v2: Value, i: nat)
    requires Settable(c, n1) && Settable(c, n2) && Disjoint(n1.items, n2.items)
    requires i < |Alternatives(v1)| && i < |Alternatives(v2)|
    ensures var z := Zipper([Discrete(n1, v1), Discrete(n2, v2)]);
            i < |z| &&
            var a := OverrideConfig(c, z[i]);
            && a.error.None?
            && At(a.config, n1.items) == Some(Alternatives(v1)[i])
            && At(a.config, n2.items) == Some(Alternatives(v2)[i])
  {
    var d1, d2 := Discrete(n1, v1), Discrete(n2, v2);
    ZipperPair(d1, d2);
    assert Zipper([d1, d2])[i] == [Override(n1, Alternatives(v1)[i]), Override(n2, Alternatives(v2)[i])];
    ApplyTwo(c, n1, Alternatives(v1)[i], n2, Alternatives(v2)[i]);
  }
}
