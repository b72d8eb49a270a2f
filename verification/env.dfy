/** Python values as they reach the Ninja writer, and the configuration
    environment seen through the operations the modelled code calls on it.
    The environment library itself (`cobble.env`) is not part of this model:
    `Env` is an abstract type and every operation on it is a parameter. */
module Values {

  /** The Python values that flow through deltas, readouts and writer calls. */
  datatype PyValue =
    | PyStr(s: string)
    | PyNone
    | PyBool(b: bool)
    | PyInt(i: int)
    | PyList(items: seq<PyValue>)

  /** Python truthiness. */
  predicate Truthy(v: PyValue)
  {
    match v
    case PyStr(s) => s != ""
    case PyNone => false
    case PyBool(b) => b
    case PyInt(i) => i != 0
    case PyList(items) => items != []
  }

  function StrList(xs: seq<string>): (r: seq<PyValue>)
    ensures |r| == |xs|
    ensures forall i :: 0 <= i < |xs| ==> r[i] == PyStr(xs[i])
  {
    if |xs| == 0 then [] else [PyStr(xs[0])] + StrList(xs[1..])
  }
}

module Env {
  import opened Values
  import opened Wrappers

  /** A configuration environment. Its contents, digest and merge rules are
      defined by code outside this model. */
  type Env(==, !new)

  /** A partial update of an environment: key/value entries, or two deltas
      applied one after the other (the shape of `c_library`'s using-delta). */
  datatype Delta =
    | Bind(entries: seq<(string, PyValue)>)
    | Both(first: Delta, second: Delta)

  const EmptyDelta := Bind([])

  /** Name of the key accumulating implicit dependency edges. */
  const ImplicitKey := "__implicit__"
  /** Name of the key accumulating order-only dependency edges. */
  const OrderOnlyKey := "__order_only__"

  /** The environment operations the modelled code calls, uninterpreted:
      - `derive(e, d)`: `e.derive(d)`, failing on an unknown key or wrong kind;
      - `subsetRequire(e, ks)`: `e.subset_require(ks)`;
      - `digest(e)`: `e.digest`;
      - `rewrite(e, s)`: `e.rewrite(s)` (key interpolation in a string);
      - `flag(e, k)`: truthiness of `e[k]`;
      - `paths(e, k)`: the frozenset of strings `e[k]` for a set-valued key;
      - `readout(e)`: `e.without({IMPLICIT, ORDER_ONLY}).readout_all()`, in its dict order. */
  datatype EnvOps = EnvOps(
    derive: (Env, Delta) -> Result<Env, string>,
    subsetRequire: (Env, set<string>) -> Env,
    digest: Env -> string,
    rewrite: (Env, string) -> Result<string, string>,
    flag: (Env, string) -> bool,
    paths: (Env, string) -> set<string>,
    readout: Env -> seq<(string, PyValue)>)
}
