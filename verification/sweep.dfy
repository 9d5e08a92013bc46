/**
 * The sweep generator: building lists of override sets one path at a time
 * (`discrete`), combining them by Cartesian product (`product`) or point-wise
 * (`zipper`), and deriving one log-directory override per set
 * (`add_log_dir_sweep`).
 *
 * Python deep-copies override sets before concatenating them; Dafny values are
 * immutable, so copies are the values themselves.
 */
module Sweeps {
  import opened Wrappers
  import opened ConfigTree

  /** The overrides that realise one experiment. */
  type OverrideSet = seq<Override>

  /** One override set per experiment of a grid. */
  type Sweep = seq<OverrideSet>

  function Min(a: int, b: int): int {
    if a <= b then a else b
  }

  /** The values `discrete` sweeps over: a list or tuple stands for its
      elements, anything else for itself alone. */
  function Alternatives(values: Value): (vs: seq<Value>)
    ensures IsSequence(values) ==> vs == values.items
    ensures !IsSequence(values) ==> vs == [values]
  {
    if IsSequence(values) then values.items else [values]
  }

  /** `discrete(node, values)`: one single-override set per value, in order. */
  function Discrete(node: Value, values: Value): (r: Sweep)
    ensures |r| == |Alternatives(values)|
    ensures forall i :: 0 <= i < |r| ==> r[i] == [Override(node, Alternatives(values)[i])]
  {
    var vs := Alternatives(values);
    seq(|vs|, i requires 0 <= i < |vs| => [Override(node, vs[i])])
  }

  /** The sets `x + y` for a fixed `x` and every `y` of `ys`, in order. */
  function Row(x: OverrideSet, ys: Sweep): (r: Sweep)
    ensures |r| == |ys|
    ensures forall j :: 0 <= j < |ys| ==> r[j] == x + ys[j]
  {
    seq(|ys|, j requires 0 <= j < |ys| => x + ys[j])
  }

  /** The two nested loops of `product`: every `x + y`, `x` varying slowest. */
  function Pair(xs: Sweep, ys: Sweep): (r: Sweep)
    decreases |xs|
    ensures r == [] <==> |xs| == 0 || |ys| == 0
    ensures r != [] ==> r[0] == xs[0] + ys[0] && r[|r| - 1] == xs[|xs| - 1] + ys[|ys| - 1]
  {
    if |xs| == 0 then [] else Row(xs[0], ys) + Pair(xs[1..], ys)
  }

  /** `product(*sweeps)` once at least one sweep is given. */
  function ProductOf(sweeps: seq<Sweep>): (r: Sweep)
    requires |sweeps| > 0
    decreases |sweeps|
    ensures r == [] <==> exists k :: 0 <= k < |sweeps| && sweeps[k] == []
  {
    if |sweeps| == 1 then sweeps[0]
    else
      assert forall k :: 1 <= k < |sweeps| ==> sweeps[1..][k - 1] == sweeps[k];
      Pair(sweeps[0], ProductOf(sweeps[1..]))
  }

  /** `product(*sweeps)`: with no sweeps at all, `sweeps[0]` raises. */
  function Product(sweeps: seq<Sweep>): (r: Result<Sweep, Error>)
    ensures |sweeps| == 0 <==> r == Err(IndexError)
    ensures |sweeps| == 1 ==> r == Ok(sweeps[0])
  {
    if |sweeps| == 0 then Err(IndexError) else Ok(ProductOf(sweeps))
  }

  /** The length of the shortest sweep; `zip` stops there. With no sweeps
      `zip()` yields nothing. */
  function MinLength(sweeps: seq<Sweep>): (n: nat)
    ensures forall k :: 0 <= k < |sweeps| ==> n <= |sweeps[k]|
    ensures |sweeps| == 0 ==> n == 0
    ensures |sweeps| > 0 ==> exists k :: 0 <= k < |sweeps| && n == |sweeps[k]|
    decreases |sweeps|
  {
    if |sweeps| == 0 then 0
    else if |sweeps| == 1 then |sweeps[0]|
    else
      var rest := MinLength(sweeps[1..]);
      assert forall k :: 1 <= k < |sweeps| ==> sweeps[1..][k - 1] == sweeps[k];
      if |sweeps[0]| <= rest then |sweeps[0]| else rest
  }

  /** The `i`-th tuple `zip` produces: element `i` of every sweep, in argument order. */
  function Column(sweeps: seq<Sweep>, i: nat): (c: seq<OverrideSet>)
    requires i < MinLength(sweeps)
    ensures |c| == |sweeps|
    ensures forall k :: 0 <= k < |sweeps| ==> c[k] == sweeps[k][i]
  {
    seq(|sweeps|, k requires 0 <= k < |sweeps| => sweeps[k][i])
  }

  /** `itertools.chain`: the override sets one after another. */
  function Concat(sets: seq<OverrideSet>): (r: OverrideSet)
    decreases |sets|
    ensures forall k, o :: 0 <= k < |sets| && o in sets[k] ==> o in r
    ensures forall o :: o in r ==> exists k :: 0 <= k < |sets| && o in sets[k]
  {
    if |sets| == 0 then [] else sets[0] + Concat(sets[1..])
  }

  /** `zipper(*sweeps)`: the point-wise concatenation, truncated to the
      shortest sweep as Python's `zip` is. */
  function Zipper(sweeps: seq<Sweep>): (r: Sweep)
    ensures forall k :: 0 <= k < |sweeps| ==> |r| <= |sweeps[k]|
    ensures |sweeps| > 0 ==> exists k :: 0 <= k < |sweeps| && |r| == |sweeps[k]|
    ensures forall i, k, o :: 0 <= i < |r| && 0 <= k < |sweeps| && o in sweeps[k][i] ==> o in r[i]
    ensures forall i, o :: 0 <= i < |r| && o in r[i] ==> exists k :: 0 <= k < |sweeps| && o in sweeps[k][i]
  {
    seq(MinLength(sweeps), i requires 0 <= i < MinLength(sweeps) => Concat(Column(sweeps, i)))
  }

  /** The node `add_log_dir_sweep` writes the directory name under: the
      literal tuple `('key',)`, whatever its `key` argument says. */
  const LogDirNode: Value := Tuple([Str("key")])

  /** `var['node'][-1]`, which `add_log_dir_sweep` appends to a string and
      therefore must itself be a string. Strings are subscriptable too. */
  function Label(node: Value): (r: Result<string, Error>)
    ensures IsSequence(node) && |node.items| == 0 ==> r == Err(IndexError)
    ensures IsSequence(node) && |node.items| > 0 ==>
              (r.Ok? <==> node.items[|node.items| - 1].Scalar? && node.items[|node.items| - 1].atom.PyStr?)
    ensures IsSequence(node) && r.Ok? ==> Str(r.value) == node.items[|node.items| - 1]
  {
    if node.Scalar? && node.atom.PyStr? then
      var s := node.atom.s;
      if |s| == 0 then Err(IndexError) else Ok([s[|s| - 1]])
    else
      var last :- Subscript(node, Int(-1));
      if last.Scalar? && last.atom.PyStr? then Ok(last.atom.s) else Err(TypeError)
  }

  /** What one override adds to a directory name: its label, `_`, the value
      as Python's `str` renders it, and `;`. */
  function Segment(o: Override, show: Value -> string): (r: Result<string, Error>)
    ensures r.Ok? ==> |r.value| > 0 && r.value[|r.value| - 1] == ';'
  {
    var name :- Label(o.node);
    Ok(name + "_" + show(o.value) + ";")
  }

  /** The segments of an override set, concatenated; the first override
      whose label is not a string stops it. */
  function Joined(os: OverrideSet, show: Value -> string): (r: Result<string, Error>)
    decreases |os|
    ensures r.Ok? <==> forall k :: 0 <= k < |os| ==> Label(os[k].node).Ok?
    ensures r.Err? ==> exists k :: 0 <= k < |os| && Label(os[k].node) == Err(r.error) &&
                          forall j :: 0 <= j < k ==> Label(os[j].node).Ok?
    ensures r.Ok? ==> |r.value| >= 2 * |os|
  {
    if |os| == 0 then Ok("")
    else
      assert forall k :: 0 <= k < |os| - 1 ==> os[..|os| - 1][k] == os[k];
      var init :- Joined(os[..|os| - 1], show);
      var s :- Segment(os[|os| - 1], show);
      Ok(init + s)
  }

  /** The directory name `add_log_dir_sweep` derives for one override set. */
  function LogDirName(base: string, os: OverrideSet, show: Value -> string): (r: Result<string, Error>)
    ensures r.Ok? <==> forall k :: 0 <= k < |os| ==> Label(os[k].node).Ok?
    ensures r.Ok? ==> base <= r.value && |r.value| >= |base| + 2 * |os|
    ensures os == [] ==> r == Ok(base)
  {
    var j :- Joined(os, show);
    assert os == [] ==> j == "" && base + j == base;
    Ok(base + j)
  }

  /** The inner loop of `add_log_dir_sweep`: the directory name of one
      override set, built by appending its segments to the base. */
  method BuildLogDir(s: OverrideSet, base: string, show: Value -> string) returns (r: Result<string, Error>)
    ensures r == LogDirName(base, s, show)
  {
    var d := base;
    for k := 0 to |s|
      invariant Joined(s[..k], show).Ok? && d == base + Joined(s[..k], show).value
    {
      var seg := Segment(s[k], show);
      assert s[..k + 1][..k] == s[..k];
      if seg.Err? {
        JoinedPrefixError(s, k + 1, show);
        return Err(seg.error);
      }
      d := d + seg.value;
    }
    assert s[..|s|] == s;
    r := Ok(d);
  }

  /** `add_log_dir_sweep(sweep, log_dir_base)`: every set gains one override
      of `('key',)` holding the directory name derived from it. */
  method AddLogDirSweep(sweep: Sweep, base: string, show: Value -> string) returns (r: Result<Sweep, Error>)
    ensures r.Ok? <==> forall i :: 0 <= i < |sweep| ==> LogDirName(base, sweep[i], show).Ok?
    ensures r.Ok? ==> |r.value| == |sweep|
    ensures r.Ok? ==> forall i :: 0 <= i < |sweep| ==>
              r.value[i] == sweep[i] + [Override(LogDirNode, Str(LogDirName(base, sweep[i], show).value))]
    ensures r.Ok? ==> forall i :: 0 <= i < |sweep| ==> base <= LogDirName(base, sweep[i], show).value
    ensures r.Ok? ==> forall i :: 0 <= i < |sweep| && sweep[i] == [] ==>
              r.value[i] == [Override(LogDirNode, Str(base))]
    ensures r.Err? ==>
              (exists i :: 0 <= i < |sweep| && LogDirName(base, sweep[i], show) == Err(r.error) &&
                 forall j :: 0 <= j < i ==> LogDirName(base, sweep[j], show).Ok?)
  {
    var dirs: seq<string> := [];
    for i := 0 to |sweep|
      invariant |dirs| == i
      invariant forall j :: 0 <= j < i ==> LogDirName(base, sweep[j], show) == Ok(dirs[j])
    {
      var d := BuildLogDir(sweep[i], base, show);
      if d.Err? {
        return Err(d.error);
      }
      dirs := dirs + [d.value];
    }
    var names := seq(|dirs|, j requires 0 <= j < |dirs| => Str(dirs[j]));
    var logDirs := Discrete(LogDirNode, List(names));
    ZipperPair(sweep, logDirs);
    r := Ok(Zipper([sweep, logDirs]));
    forall i | 0 <= i < |sweep|
      ensures r.value[i] == sweep[i] + [Override(LogDirNode, Str(dirs[i]))]
      ensures sweep[i] == [] ==> r.value[i] == [Override(LogDirNode, Str(base))]
    {
      assert logDirs[i] == [Override(LogDirNode, names[i])];
      if sweep[i] == [] {
        assert dirs[i] == base + "" == base;
        assert sweep[i] + [Override(LogDirNode, Str(dirs[i]))] == [Override(LogDirNode, Str(base))];
      }
    }
  }

  /** Once a prefix of an override set fails to name a directory, the whole set fails the same way. */
  lemma {:induction false} JoinedPrefixError(os: OverrideSet, k: nat, show: Value -> string)
    requires k <= |os| && Joined(os[..k], show).Err?
    ensures Joined(os, show) == Joined(os[..k], show)
    decreases |os| - k
  {
    if k < |os| {
      assert os[..k + 1][..k] == os[..k];
      JoinedPrefixError(os, k + 1, show);
    } else {
      assert os[..k] == os;
    }
  }

  /** Zipping two sweeps concatenates them point-wise up to the shorter length. */
  lemma ZipperPair(a: Sweep, b: Sweep)
    ensures |Zipper([a, b])| == Min(|a|, |b|)
    ensures forall i :: 0 <= i < Min(|a|, |b|) ==> Zipper([a, b])[i] == a[i] + b[i]
  {
    var z := Zipper([a, b]);
    assert [a, b][1..] == [b];
    assert MinLength([a, b]) == Min(|a|, |b|);
    forall i | 0 <= i < Min(|a|, |b|)
      ensures z[i] == a[i] + b[i]
    {
      var c := Column([a, b], i);
      assert c[1..][1..] == [];
      assert Concat(c[1..]) == b[i] + [];
      assert Concat(c) == a[i] + b[i];
    }
  }
}

module SweepLaws {
  import opened Wrappers
  import opened ConfigTree
  import opened Sweeps

  /** Two nested loops produce `|xs| * |ys|` sets. */
  lemma {:induction false} PairLength(xs: Sweep, ys: Sweep)
    ensures |Pair(xs, ys)| == |xs| * |ys|
    decreases |xs|
  {
    if |xs| > 0 {
      PairLength(xs[1..], ys);
      assert |xs| * |ys| == |ys| + (|xs| - 1) * |ys|;
    }
  }

  /** Row `i` of an `m`-by-`n` grid ends before the grid does. */
  lemma RowMajorBound(i: nat, j: nat, m: nat, n: nat)
    requires i < m && j < n
    ensures i * n + j < m * n
  {
    assert m * n - i * n == (m - i) * n;
    assert (m - i) * n >= n by {
      assert (m - i) * n == n + (m - i - 1) * n;
    }
  }

  /** The set at position `i * |ys| + j` of the pairing is `xs[i] + ys[j]`:
      row-major order, with the first sweep's overrides first. */
  lemma {:induction false} PairIndex(xs: Sweep, ys: Sweep, i: nat, j: nat)
    requires i < |xs| && j < |ys|
    ensures i * |ys| + j < |Pair(xs, ys)|
    ensures Pair(xs, ys)[i * |ys| + j] == xs[i] + ys[j]
    decreases i
  {
    PairLength(xs, ys);
    RowMajorBound(i, j, |xs|, |ys|);
    var row, rest := Row(xs[0], ys), Pair(xs[1..], ys);
    assert Pair(xs, ys) == row + rest;
    if i > 0 {
      PairIndex(xs[1..], ys, i - 1, j);
      var t := (i - 1) * |ys| + j;
      assert i * |ys| + j == |ys| + t;
      assert (row + rest)[|ys| + t] == rest[t];
    }
  }

  /** A position in an `m`-by-`n` grid splits into its row and column. */
  lemma RowMajorSplit(k: nat, m: nat, n: nat)
    requires k < m * n
    ensures n > 0 && k / n < m && k % n < n && k == (k / n) * n + k % n
  {
    assert n > 0;
  }

  /** Every set of the pairing is `xs[k / |ys|] + ys[k % |ys|]`. */
  lemma PairElement(xs: Sweep, ys: Sweep, k: nat)
    requires k < |xs| * |ys|
    ensures |ys| > 0 && k / |ys| < |xs| && k < |Pair(xs, ys)|
    ensures Pair(xs, ys)[k] == xs[k / |ys|] + ys[k % |ys|]
  {
    var i, j := PairSplit(xs, ys, k);
    RowMajorSplit(k, |xs|, |ys|);
    RowMajorUnique(k, |ys|, i, j);
  }

  /** Every set of the pairing is some `xs[i] + ys[j]`. */
  lemma PairSplit(xs: Sweep, ys: Sweep, k: nat) returns (i: nat, j: nat)
    requires k < |xs| * |ys|
    ensures i < |xs| && j < |ys| && k == i * |ys| + j && k < |Pair(xs, ys)|
    ensures Pair(xs, ys)[k] == xs[i] + ys[j]
  {
    RowMajorSplit(k, |xs|, |ys|);
    i, j := k / |ys|, k % |ys|;
    PairIndex(xs, ys, i, j);
  }

  /** Row and column of a grid position are unique. */
  lemma RowMajorUnique(k: nat, n: nat, i: nat, j: nat)
    requires j < n && k == i * n + j
    ensures k / n == i && k % n == j
  {
    var q, r := k / n, k % n;
    assert k == q * n + r && 0 <= r < n;
    assert (q - i) * n == j - r;
    if q > i {
      MulAtLeast(q - i, n);
    } else if q < i {
      MulAtLeast(i - q, n);
    }
  }

  lemma MulAtLeast(a: int, n: nat)
    requires a >= 1
    ensures a * n >= n
  {
    assert a * n == n + (a - 1) * n;
  }

  /** The number of sets a product yields: the product of the sweeps' lengths. */
  function Count(sweeps: seq<Sweep>): nat
    decreases |sweeps|
  {
    if |sweeps| == 0 then 1 else |sweeps[0]| * Count(sweeps[1..])
  }

  /** `|product(s0, ..., sn)| == |s0| * ... * |sn|`. */
  lemma {:induction false} ProductLength(sweeps: seq<Sweep>)
    requires |sweeps| > 0
    ensures |ProductOf(sweeps)| == Count(sweeps)
    decreases |sweeps|
  {
    if |sweeps| == 1 {
      assert Count(sweeps[1..]) == 1;
    } else {
      ProductLength(sweeps[1..]);
      PairLength(sweeps[0], ProductOf(sweeps[1..]));
    }
  }

  /** The recursive step of `product`: position `i * |rest| + j` of
      `product(s0, *rest)` holds `s0[i]` followed by position `j` of
      `product(*rest)`. */
  lemma ProductStep(s0: Sweep, rest: seq<Sweep>, i: nat, j: nat)
    requires |rest| > 0
    requires i < |s0| && j < |ProductOf(rest)|
    ensures i * |ProductOf(rest)| + j < |ProductOf([s0] + rest)|
    ensures ProductOf([s0] + rest)[i * |ProductOf(rest)| + j] == s0[i] + ProductOf(rest)[j]
  {
    assert ([s0] + rest)[1..] == rest;
    PairIndex(s0, ProductOf(rest), i, j);
  }

  /** A choice of one set from each sweep. */
  predicate ValidPick(sweeps: seq<Sweep>, c: seq<nat>) {
    |c| == |sweeps| && forall k :: 0 <= k < |c| ==> c[k] < |sweeps[k]|
  }

  /** The chosen sets, concatenated in sweep order. */
  function Pick(sweeps: seq<Sweep>, c: seq<nat>): OverrideSet
    requires ValidPick(sweeps, c)
    decreases |c|
  {
    if |c| == 0 then [] else sweeps[0][c[0]] + Pick(sweeps[1..], c[1..])
  }

  /** The mixed-radix position of a choice, the first sweep varying slowest. */
  function RankOf(sweeps: seq<Sweep>, c: seq<nat>): nat
    requires ValidPick(sweeps, c)
    decreases |c|
  {
    if |c| == 0 then 0 else c[0] * Count(sweeps[1..]) + RankOf(sweeps[1..], c[1..])
  }

  lemma {:induction false} RankBound(sweeps: seq<Sweep>, c: seq<nat>)
    requires ValidPick(sweeps, c)
    ensures RankOf(sweeps, c) < Count(sweeps)
    decreases |c|
  {
    if |c| > 0 {
      RankBound(sweeps[1..], c[1..]);
      RowMajorBound(c[0], RankOf(sweeps[1..], c[1..]), |sweeps[0]|, Count(sweeps[1..]));
    }
  }

  /** Every choice of one set per sweep appears in the product, at its
      mixed-radix position, as the concatenation of the chosen sets. */
  lemma {:induction false} ProductHasEveryPick(sweeps: seq<Sweep>, c: seq<nat>)
    requires |sweeps| > 0 && ValidPick(sweeps, c)
    ensures RankOf(sweeps, c) < |ProductOf(sweeps)|
    ensures ProductOf(sweeps)[RankOf(sweeps, c)] == Pick(sweeps, c)
    decreases |sweeps|
  {
    ProductLength(sweeps);
    RankBound(sweeps, c);
    if |sweeps| == 1 {
      assert Pick(sweeps[1..], c[1..]) == [];
      assert Count(sweeps[1..]) == 1;
    } else {
      var rest := ProductOf(sweeps[1..]);
      ProductHasEveryPick(sweeps[1..], c[1..]);
      ProductLength(sweeps[1..]);
      PairIndex(sweeps[0], rest, c[0], RankOf(sweeps[1..], c[1..]));
    }
  }

  /** Conversely, every set of the product is the concatenation of one set
      from each sweep, in sweep order. */
  lemma {:induction false} ProductOnlyPicks(sweeps: seq<Sweep>, k: nat)
    requires |sweeps| > 0 && k < |ProductOf(sweeps)|
    ensures exists c :: ValidPick(sweeps, c) && ProductOf(sweeps)[k] == Pick(sweeps, c)
    decreases |sweeps|
  {
    if |sweeps| == 1 {
      var c := [k];
      assert Pick(sweeps, c) == sweeps[0][k] + [];
      assert ValidPick(sweeps, c);
    } else {
      var rest := ProductOf(sweeps[1..]);
      assert ProductOf(sweeps) == Pair(sweeps[0], rest);
      PairLength(sweeps[0], rest);
      var i, j := PairSplit(sweeps[0], rest, k);
      ProductOnlyPicks(sweeps[1..], j);
      var c' :| ValidPick(sweeps[1..], c') && rest[j] == Pick(sweeps[1..], c');
      var c := [i] + c';
      assert c[1..] == c';
      assert ProductOf(sweeps)[k] == sweeps[0][c[0]] + Pick(sweeps[1..], c[1..]);
      assert ValidPick(sweeps, c) by {
        forall j | 0 <= j < |c|
          ensures c[j] < |sweeps[j]|
        {
          if j > 0 {
            assert c[j] == c'[j - 1] && sweeps[j] == sweeps[1..][j - 1];
          }
        }
      }
    }
  }

  /** `zip` of one sweep is that sweep. */
  lemma ZipperSingle(s: Sweep)
    ensures Zipper([s]) == s
  {
    forall i | 0 <= i < |s|
      ensures Zipper([s])[i] == s[i]
    {
      assert Concat(Column([s], i)) == s[i] + [];
    }
  }

  /** `itertools.chain` over two groups of sets is the two chains concatenated. */
  lemma {:induction false} ConcatAppend(a: seq<OverrideSet>, b: seq<OverrideSet>)
    ensures Concat(a + b) == Concat(a) + Concat(b)
    decreases |a|
  {
    if |a| == 0 {
      assert a + b == b;
    } else {
      assert (a + b)[1..] == a[1..] + b;
      ConcatAppend(a[1..], b);
    }
  }

  /** The shortest of two groups of sweeps is the shorter of their shortest. */
  lemma MinLengthAppend(xs: seq<Sweep>, ys: seq<Sweep>)
    requires |xs| > 0 && |ys| > 0
    ensures MinLength(xs + ys) == Min(MinLength(xs), MinLength(ys))
  {
    var m := MinLength(xs + ys);
    forall k | 0 <= k < |xs|
      ensures m <= |xs[k]|
    {
      assert (xs + ys)[k] == xs[k];
    }
    forall k | 0 <= k < |ys|
      ensures m <= |ys[k]|
    {
      assert (xs + ys)[|xs| + k] == ys[k];
    }
    var k :| 0 <= k < |xs + ys| && m == |(xs + ys)[k]|;
    if k < |xs| {
      assert (xs + ys)[k] == xs[k];
    } else {
      assert (xs + ys)[k] == ys[k - |xs|];
    }
  }

  /** Zipping is associative: zipping a group of sweeps split in two is
      zipping the zips of the two parts. */
  lemma ZipperAppend(xs: seq<Sweep>, ys: seq<Sweep>)
    requires |xs| > 0 && |ys| > 0
    ensures Zipper(xs + ys) == Zipper([Zipper(xs), Zipper(ys)])
  {
    MinLengthAppend(xs, ys);
    ZipperPair(Zipper(xs), Zipper(ys));
    var z := Zipper(xs + ys);
    forall i | 0 <= i < |z|
      ensures z[i] == Zipper(xs)[i] + Zipper(ys)[i]
    {
      ColumnAppend(xs, ys, i);
      ConcatAppend(Column(xs, i), Column(ys, i));
    }
  }

  lemma ColumnAppend(xs: seq<Sweep>, ys: seq<Sweep>, i: nat)
    requires i < MinLength(xs + ys) && i < MinLength(xs) && i < MinLength(ys)
    ensures Column(xs + ys, i) == Column(xs, i) + Column(ys, i)
  {
    var l, r := Column(xs + ys, i), Column(xs, i) + Column(ys, i);
    forall k | 0 <= k < |l|
      ensures l[k] == r[k]
    {
      if k < |xs| {
        assert (xs + ys)[k] == xs[k];
      } else {
        assert (xs + ys)[k] == ys[k - |xs|];
      }
    }
  }

  /** A segment that contains `;` only at its end. */
  predicate Unambiguous(os: OverrideSet, show: Value -> string) {
    forall i :: 0 <= i < |os| ==>
      Segment(os[i], show).Ok? && ';' !in Segment(os[i], show).value[..|Segment(os[i], show).value| - 1]
  }

  /** A joined name is empty or ends with the `;` closing its last segment. */
  lemma JoinedEnds(os: OverrideSet, show: Value -> string)
    requires Joined(os, show).Ok?
    ensures var t := Joined(os, show).value; |os| == 0 <==> |t| == 0
    ensures var t := Joined(os, show).value; |t| > 0 ==> t[|t| - 1] == ';'
  {
  }

  /** Two names split the same way at their last segment when every
      segment has its only `;` at its end. */
  lemma SplitLastSegment(u: string, s: string, v: string, s': string)
    requires u + s == v + s'
    requires |s| > 0 && s[|s| - 1] == ';' && ';' !in s[..|s| - 1]
    requires |s'| > 0 && s'[|s'| - 1] == ';' && ';' !in s'[..|s'| - 1]
    requires |u| == 0 || u[|u| - 1] == ';'
    requires |v| == 0 || v[|v| - 1] == ';'
    ensures s == s' && u == v
  {
    var t := u + s;
    assert s == t[|u|..] && s' == t[|v|..];
    assert u == t[..|u|] && v == t[..|v|];
  }

  /** Dropping the last override keeps a set unambiguous. */
  lemma UnambiguousInit(os: OverrideSet, show: Value -> string)
    requires |os| > 0 && Unambiguous(os, show)
    ensures Unambiguous(os[..|os| - 1], show)
  {
    var init := os[..|os| - 1];
    forall i | 0 <= i < |init| ensures init[i] == os[i] { }
  }

  /** A non-empty name is the name of all but the last override followed by
      the last override's segment. */
  lemma JoinedSnoc(a: OverrideSet, show: Value -> string)
    requires |a| > 0 && Joined(a, show).Ok?
    ensures Joined(a[..|a| - 1], show).Ok? && Segment(a[|a| - 1], show).Ok?
    ensures Joined(a, show).value == Joined(a[..|a| - 1], show).value + Segment(a[|a| - 1], show).value
  {
  }

  /** The last segment of an unambiguous set has its only `;` at its end. */
  lemma UnambiguousLast(a: OverrideSet, show: Value -> string)
    requires |a| > 0 && Unambiguous(a, show)
    ensures var s := Segment(a[|a| - 1], show);
            s.Ok? && |s.value| > 0 && s.value[|s.value| - 1] == ';' && ';' !in s.value[..|s.value| - 1]
  {
  }

  /** Equal non-empty names of unambiguous sets end in the same segment,
      and what precedes it is equal too. */
  lemma JoinedStep(a: OverrideSet, b: OverrideSet, show: Value -> string)
    requires |a| > 0 && |b| > 0 && Unambiguous(a, show) && Unambiguous(b, show)
    requires Joined(a, show).Ok? && Joined(b, show).Ok?
    requires Joined(a, show).value == Joined(b, show).value
    ensures Joined(a[..|a| - 1], show).Ok? && Joined(b[..|b| - 1], show).Ok?
    ensures Joined(a[..|a| - 1], show).value == Joined(b[..|b| - 1], show).value
    ensures Segment(a[|a| - 1], show) == Segment(b[|b| - 1], show)
  {
    var a', b' := a[..|a| - 1], b[..|b| - 1];
    JoinedSnoc(a, show);
    JoinedSnoc(b, show);
    UnambiguousLast(a, show);
    UnambiguousLast(b, show);
    JoinedEnds(a', show);
    JoinedEnds(b', show);
    SplitLastSegment(Joined(a', show).value, Segment(a[|a| - 1], show).value,
                     Joined(b', show).value, Segment(b[|b| - 1], show).value);
  }

  /** Directory names tell override sets apart as far as their segments go:
      when no label or rendered value contains `;`, equal names come from
      override sets with equal segments, position by position. */
  lemma {:induction false} JoinedInjective(a: OverrideSet, b: OverrideSet, show: Value -> string)
    requires Unambiguous(a, show) && Unambiguous(b, show)
    requires Joined(a, show).Ok? && Joined(b, show).Ok?
    requires Joined(a, show).value == Joined(b, show).value
    ensures |a| == |b|
    ensures forall i :: 0 <= i < |a| ==> Segment(a[i], show) == Segment(b[i], show)
    decreases |a| + |b|
  {
    JoinedEnds(a, show);
    JoinedEnds(b, show);
    if |a| > 0 && |b| > 0 {
      var a', b' := a[..|a| - 1], b[..|b| - 1];
      JoinedStep(a, b, show);
      UnambiguousInit(a, show);
      UnambiguousInit(b, show);
      JoinedInjective(a', b', show);
      forall i | 0 <= i < |a|
        ensures Segment(a[i], show) == Segment(b[i], show)
      {
        if i < |a| - 1 {
          assert a'[i] == a[i] && b'[i] == b[i];
        }
      }
    }
  }

  /** The same for whole directory names built on a common base. */
  lemma LogDirNamesDistinguish(base: string, a: OverrideSet, b: OverrideSet, show: Value -> string)
    requires Unambiguous(a, show) && Unambiguous(b, show)
    requires LogDirName(base, a, show).Ok? && LogDirName(base, a, show) == LogDirName(base, b, show)
    ensures |a| == |b|
    ensures forall i :: 0 <= i < |a| ==> Segment(a[i], show) == Segment(b[i], show)
  {
    var ja, jb := Joined(a, show).value, Joined(b, show).value;
    assert ja == (base + ja)[|base|..] == (base + jb)[|base|..] == jb;
    JoinedInjective(a, b, show);
  }

  /** The directory-name segment of an override of the node `('a',)`. */
  lemma SegmentOfA(v: Value, show: Value -> string)
    ensures Segment(Override(Tuple([Str("a")]), v), show) == Ok("a_" + show(v) + ";")
  {
    assert Label(Tuple([Str("a")])) == Ok("a");
    assert "a" + "_" == "a_";
  }

  /** Without that condition names collide: `str` renders `1` and `'1'`
      alike, so the two values give the same name. */
  lemma LogDirCollisionRendering(base: string, show: Value -> string)
    requires show(Int(1)) == "1" && show(Str("1")) == "1"
    ensures var a := Tuple([Str("a")]);
            LogDirName(base, [Override(a, Int(1))], show) == LogDirName(base, [Override(a, Str("1"))], show)
  {
    var a := Tuple([Str("a")]);
    SegmentOfA(Int(1), show);
    SegmentOfA(Str("1"), show);
    assert [Override(a, Int(1))][..0] == [] == [Override(a, Str("1"))][..0];
  }

  /** The name of a single override is its segment. */
  lemma JoinedOne(o: Override, show: Value -> string)
    requires Segment(o, show).Ok?
    ensures Joined([o], show) == Segment(o, show)
  {
    assert [o][..0] == [];
    assert "" + Segment(o, show).value == Segment(o, show).value;
  }

  /** The name of two overrides is their segments, in order. */
  lemma JoinedTwo(o1: Override, o2: Override, show: Value -> string)
    requires Segment(o1, show).Ok? && Segment(o2, show).Ok?
    ensures Joined([o1, o2], show) == Ok(Segment(o1, show).value + Segment(o2, show).value)
  {
    assert [o1, o2][..1] == [o1];
    JoinedOne(o1, show);
  }

  /** A value containing `;` can mimic a second override. */
  lemma LogDirCollisionSeparator(base: string, show: Value -> string)
    requires show(Str("1")) == "1" && show(Str("2")) == "2" && show(Str("1;a_2")) == "1;a_2"
    ensures var a := Tuple([Str("a")]);
            LogDirName(base, [Override(a, Str("1;a_2"))], show) ==
            LogDirName(base, [Override(a, Str("1")), Override(a, Str("2"))], show)
  {
    var a := Tuple([Str("a")]);
    var one, two, both := Override(a, Str("1")), Override(a, Str("2")), Override(a, Str("1;a_2"));
    SegmentOfA(Str("1"), show);
    SegmentOfA(Str("2"), show);
    SegmentOfA(Str("1;a_2"), show);
    JoinedOne(both, show);
    JoinedTwo(one, two, show);
    var name := "a_" + "1;a_2" + ";";
    assert ("a_" + "1" + ";") + ("a_" + "2" + ";") == name;
    assert Joined([both], show) == Ok(name);
    assert Joined([one, two], show) == Ok(name);
    assert LogDirName(base, [both], show) == Ok(base + name);
    assert LogDirName(base, [one, two], show) == Ok(base + name);
  }
}
