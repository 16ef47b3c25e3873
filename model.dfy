/** The template data of src/main.rs (`Variable`, `Intermediate`, `Question`), the
    name/value tables that `main` fills, and the collaborators it calls but that
    are not modelled: the random generator, floating-point rounding, the
    expression evaluator, number formatting and hash-map iteration order. */
module Model {

  datatype Option<T> = None | Some(value: T)

  datatype Result<T> = Ok(value: T) | Err(error: Error)

  /** The ways `main` panics before writing its output. */
  datatype Error =
    | UnknownVariableType             // `panic!("Unknown variable type")`
    | SamplingFailed                  // `gen_range` panics on the range it is given
    | UnresolvedDependency(name: string)   // `vars.get(dep).unwrap()` on a missing name
    | FormulaEvaluationError(formula: string)   // `meval::eval_str(..).unwrap()` fails

  /** An `f64`; only the collaborators below look inside one. */
  type Value(!new)

  /** The state of the seeded `StdRng`. */
  type Rng(!new)

  /** A `u64`, the type of the seed. */
  type U64 = n: nat | n < 0x1_0000_0000_0000_0000

  /** The two accepted variable types. */
  datatype VarKind = Int | Float

  /** A `Variable`: its type is still the raw string read from the template. */
  datatype VariableSpec = VariableSpec(varType: string, low: Value, high: Value, round: Option<int>)

  /** An `Intermediate`. */
  datatype IntermediateSpec = IntermediateSpec(formula: string, dependencies: seq<string>, round: Option<int>)

  /** A `Question`; each of its two hash maps is given in the order it is iterated. */
  datatype Question = Question(
    question: string,
    variables: seq<(string, VariableSpec)>,
    intermediates: seq<(string, IntermediateSpec)>,
    answer: string,
    solution: string)

  /** A `HashMap<String, f64>` as its entries. */
  type Env = seq<(string, Value)>

  /** The collaborators of `main` that are not modelled, as functions. */
  datatype Externals = Externals(
    seedRng: U64 -> Rng,                                          // `StdRng::seed_from_u64`
    draw: (Rng, VarKind, Value, Value) -> Option<(Value, Rng)>,   // `gen_range` for the kind, `None` when it panics
    roundTo: (Value, int) -> Value,                               // `(x * 10^r).round() / 10^r`
    eval: string -> Option<Value>,                                // `meval::eval_str`
    show: Value -> string,                                        // `f64::to_string`
    order: Env -> Env)                                            // the order in which a hash map is iterated

  ghost function Names(env: Env): set<string> {
    if env == [] then {} else {env[0].0} + Names(env[1..])
  }

  /** No name is entered twice, as in a hash map. */
  ghost predicate Distinct(env: Env) {
    env == [] || (env[0].0 !in Names(env[1..]) && Distinct(env[1..]))
  }

  lemma {:induction false} NamesOfEntries(env: Env)
    ensures forall e :: e in env ==> e.0 in Names(env)
  {
    if env != [] {
      NamesOfEntries(env[1..]);
      assert forall e :: e in env ==> e == env[0] || e in env[1..];
    }
  }

  lemma {:induction false} EntriesOfNames(env: Env, name: string)
    requires name in Names(env)
    ensures exists v :: (name, v) in env
  {
    if env[0].0 != name {
      EntriesOfNames(env[1..], name);
      var v :| (name, v) in env[1..];
      assert (name, v) in env;
    } else {
      assert (name, env[0].1) == env[0];
    }
  }

  /** Two tables with the same entries have the same names. */
  lemma SameEntriesSameNames(x: Env, y: Env)
    requires forall e :: e in x <==> e in y
    ensures Names(x) == Names(y)
  {
    NamesOfEntries(x);
    NamesOfEntries(y);
    forall n | n in Names(x) ensures n in Names(y) {
      EntriesOfNames(x, n);
    }
    forall n | n in Names(y) ensures n in Names(x) {
      EntriesOfNames(y, n);
    }
  }

  /** The names of the entries of a template map. */
  ghost function KeysOf<S>(entries: seq<(string, S)>): set<string> {
    set e | e in entries :: e.0
  }

  lemma KeysOfCons<S>(entries: seq<(string, S)>)
    requires entries != []
    ensures KeysOf(entries) == {entries[0].0} + KeysOf(entries[1..])
  {
    assert forall e :: e in entries <==> e == entries[0] || e in entries[1..];
  }

  /** The keys of a template map are distinct, as in the hash map it was read into. */
  ghost predicate DistinctKeys<S>(entries: seq<(string, S)>) {
    forall i, j :: 0 <= i < j < |entries| ==> entries[i].0 != entries[j].0
  }

  /** The two ways of naming a table's keys agree: `Names` is `KeysOf`, and
      `Distinct` is `DistinctKeys`. */
  lemma {:induction false} NamesAreKeys(env: Env)
    ensures Names(env) == KeysOf(env)
    ensures Distinct(env) <==> DistinctKeys(env)
    decreases |env|
  {
    if env != [] {
      var t := env[1..];
      NamesAreKeys(t);
      KeysOfCons(env);
      assert env[0].0 in KeysOf(t) <==> exists j :: 0 <= j < |t| && t[j].0 == env[0].0 by {
        forall j | 0 <= j < |t| ensures t[j] in t {
        }
      }
      assert forall j :: 0 <= j < |t| ==> t[j] == env[j + 1];
      assert DistinctKeys(env) <==>
        (forall j :: 0 < j < |env| ==> env[0].0 != env[j].0) && DistinctKeys(t);
    }
  }

  /** `map.get(name)`. */
  function Lookup(env: Env, name: string): (r: Option<Value>)
    ensures r.Some? <==> name in Names(env)
    ensures r.Some? ==> (name, r.value) in env
    ensures Distinct(env) ==> forall v :: (name, v) in env ==> r == Some(v)
  {
    if env == [] then None
    else if env[0].0 == name then
      NamesOfEntries(env[1..]);
      assert forall e :: e in env ==> e == env[0] || e in env[1..];
      Some(env[0].1)
    else
      assert forall e :: e in env ==> e == env[0] || e in env[1..];
      Lookup(env[1..], name)
  }

  /** `map.insert(name, v)`: the value of an existing key is replaced, a new key is added. */
  function Insert(env: Env, name: string, v: Value): (r: Env)
    ensures Lookup(r, name) == Some(v)
    ensures forall n :: n != name ==> Lookup(r, n) == Lookup(env, n)
    ensures Names(r) == Names(env) + {name}
    ensures Distinct(env) ==> Distinct(r)
  {
    if env == [] then
      [(name, v)]
    else if env[0].0 == name then
      var r := [(name, v)] + env[1..];
      assert r[1..] == env[1..];
      r
    else
      var r := [env[0]] + Insert(env[1..], name, v);
      assert r[1..] == Insert(env[1..], name, v);
      r
  }

  /** `match round { Some(r) => .., None => value }`. */
  function Rounded(x: Value, round: Option<int>, ext: Externals): Value {
    match round
    case Some(r) => ext.roundTo(x, r)
    case None => x
  }

  /** `order` is a permutation: it lists a table's entries, each as often as
      the table holds it. */
  ghost predicate IteratesEntries(ext: Externals) {
    forall env: Env :: multiset(ext.order(env)) == multiset(env)
  }

  /** The iteration of a table holds exactly its entries, and as many of them. */
  lemma OrderedEntries(ext: Externals, env: Env)
    requires IteratesEntries(ext)
    ensures |ext.order(env)| == |env|
    ensures forall e :: e in ext.order(env) <==> e in env
  {
    assert multiset(ext.order(env)) == multiset(env);
    assert |multiset(ext.order(env))| == |multiset(env)|;
    forall e ensures e in ext.order(env) <==> e in env {
      assert e in ext.order(env) <==> e in multiset(ext.order(env));
      assert e in env <==> e in multiset(env);
    }
  }
}
