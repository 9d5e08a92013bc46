/**
 * The configuration-tree data model shared by the construction engine, the
 * override engine and the sweep generator: the Python values a configuration
 * is made of, dictionary lookup with Python's `in` and `[]`, and the
 * exceptions the core can raise.
 */
module ConfigTree {
  import opened Wrappers

  /** Python values that are not containers. `Opaque` stands for any other
      object held by reference in a configuration: a class, a function, a set,
      a float. */
  datatype Atom =
    | PyNone
    | PyBool(b: bool)
    | PyInt(i: int)
    | PyStr(s: string)
    | Opaque(id: nat)

  /** A configuration tree. Dictionaries keep insertion order, as Python's do.
      `Instance` is an object produced by calling a constructor with positional
      and keyword arguments; it is what the construction engine returns for a
      constructor form, and it may also appear, pre-built, inside an input. */
  datatype Value =
    | Scalar(atom: Atom)
    | List(items: seq<Value>)
    | Tuple(items: seq<Value>)
    | Dict(entries: seq<Entry>)
    | Instance(ctor: Value, args: seq<Value>, kwargs: seq<Entry>)

  /** One key/value pair of a dictionary. */
  datatype Entry = Entry(key: Value, value: Value)

  /** The Python exceptions the core raises or lets escape. */
  datatype Error =
    | KeyError(key: Value)   // `d[k]` on a dictionary without `k`
    | IndexError             // `s[i]` outside the sequence
    | TypeError              // an operand of the wrong type
    | AttributeError         // `getattr` or a method such as `.items()` is missing
    | ImportError            // `importlib.import_module` could not find the module
    | ValueError             // raised by the override engine itself

  /** One override: the `{'node': ..., 'value': ...}` dictionaries that sweeps
      are made of and that the override engine consumes. */
  datatype Override = Override(node: Value, value: Value)

  function Str(s: string): Value {
    Scalar(PyStr(s))
  }

  function Int(i: int): Value {
    Scalar(PyInt(i))
  }

  /** Python's `isinstance(v, (list, tuple))`. */
  predicate IsSequence(v: Value) {
    v.List? || v.Tuple?
  }

  /** The keys of a dictionary, in insertion order. */
  function Keys(es: seq<Entry>): (ks: seq<Value>)
    ensures |ks| == |es|
    ensures forall i :: 0 <= i < |es| ==> ks[i] == es[i].key
  {
    seq(|es|, i requires 0 <= i < |es| => es[i].key)
  }

  /** Where key `k` sits in a dictionary, if it is present. */
  function Find(es: seq<Entry>, k: Value): (r: Option<nat>)
    ensures r.Some? ==> r.value < |es| && es[r.value].key == k
    ensures r.Some? ==> forall j :: 0 <= j < r.value ==> es[j].key != k
    ensures r.None? <==> k !in Keys(es)
  {
    if |es| == 0 then None
    else if es[0].key == k then Some(0)
    else match Find(es[1..], k)
      case None => None
      case Some(j) => Some(j + 1)
  }

  /** Lookup depends only on the keys, so replacing values leaves it unchanged. */
  lemma {:induction false} FindSameKeys(a: seq<Entry>, b: seq<Entry>, k: Value)
    requires Keys(a) == Keys(b)
    ensures Find(a, k) == Find(b, k)
    decreases |a|
  {
    if |a| > 0 {
      assert a[0].key == Keys(a)[0] == Keys(b)[0] == b[0].key;
      assert Keys(a[1..]) == Keys(a)[1..] == Keys(b)[1..] == Keys(b[1..]);
      FindSameKeys(a[1..], b[1..], k);
    }
  }

  /** The value stored under `k`, if any. */
  function Get(es: seq<Entry>, k: Value): (r: Option<Value>)
    ensures r.Some? <==> k in Keys(es)
    ensures r.Some? ==> exists i :: 0 <= i < |es| && es[i] == Entry(k, r.value)
  {
    match Find(es, k)
    case None => None
    case Some(i) => Some(es[i].value)
  }

  /** The position `c[k]` reads from, for a dictionary, list or tuple `c`:
      dictionaries are looked up by key, lists and tuples by an integer index
      that may count from the end. */
  function Position(c: Value, k: Value): (r: Result<nat, Error>)
    ensures r.Ok? ==> (c.Dict? && r.value < |c.entries| && c.entries[r.value].key == k)
                      || (IsSequence(c) && r.value < |c.items|)
    ensures c.Dict? ==> (r.Ok? <==> k in Keys(c.entries))
    ensures IsSequence(c) && k.Scalar? && k.atom.PyInt? ==>
              (r.Ok? <==> -|c.items| <= k.atom.i < |c.items|)
    ensures r.Ok? && IsSequence(c) ==>
              k.Scalar? && k.atom.PyInt? &&
              r.value == (if k.atom.i < 0 then |c.items| + k.atom.i else k.atom.i)
    ensures !c.Dict? && !IsSequence(c) ==> r == Err(TypeError)
    ensures c.Dict? && r.Err? ==> r.error == KeyError(k)
    ensures IsSequence(c) && !(k.Scalar? && k.atom.PyInt?) ==> r == Err(TypeError)
    ensures IsSequence(c) && k.Scalar? && k.atom.PyInt? && r.Err? ==> r.error == IndexError
  {
    if c.Dict? then
      match Find(c.entries, k)
      case None => Err(KeyError(k))
      case Some(i) => Ok(i)
    else if IsSequence(c) then
      if k.Scalar? && k.atom.PyInt? then
        var n := |c.items|;
        var i := k.atom.i;
        if -n <= i < 0 then Ok(n + i)
        else if 0 <= i < n then Ok(i)
        else Err(IndexError)
      else Err(TypeError)
    else Err(TypeError)
  }

  /** The element at a position found by `Position`. */
  function Element(c: Value, j: nat): Value
    requires (c.Dict? && j < |c.entries|) || (IsSequence(c) && j < |c.items|)
  {
    if c.Dict? then c.entries[j].value else c.items[j]
  }

  /** Python's read `c[k]`: a dictionary yields the value stored under `k`
      or raises `KeyError(k)`; a list or tuple yields the element an integer
      index names, counting from the end when it is negative, or raises
      `IndexError` outside it and `TypeError` for a non-integer index;
      anything else raises `TypeError`. */
  function Subscript(c: Value, k: Value): (r: Result<Value, Error>)
    ensures c.Dict? ==> (r.Ok? <==> k in Keys(c.entries))
    ensures c.Dict? && r.Ok? ==> Get(c.entries, k) == Some(r.value)
    ensures c.Dict? && r.Err? ==> r.error == KeyError(k)
    ensures IsSequence(c) && k.Scalar? && k.atom.PyInt? ==>
              if -|c.items| <= k.atom.i < 0 then r == Ok(c.items[|c.items| + k.atom.i])
              else if 0 <= k.atom.i < |c.items| then r == Ok(c.items[k.atom.i])
              else r == Err(IndexError)
    ensures IsSequence(c) && !(k.Scalar? && k.atom.PyInt?) ==> r == Err(TypeError)
    ensures !c.Dict? && !IsSequence(c) ==> r == Err(TypeError)
  {
    var j :- Position(c, k);
    Ok(Element(c, j))
  }
}
