/** Sampling the variables of one question (src/main.rs, lines 54-66): the type
    dispatch, one draw from the shared generator per variable, optional
    rounding, and the insertion into `vars`. */
module Sampling {
  import opened Model

  /** The type string accepted for each kind. */
  function KindName(k: VarKind): string {
    match k
    case Int => "int"
    case Float => "float"
  }

  /** `match var.var_type.as_str() { "int" => .., "float" => .., _ => panic!(..) }`. */
  function ParseVarType(s: string): Option<VarKind> {
    if s == "int" then Some(Int)
    else if s == "float" then Some(Float)
    else None
  }

  /** "int" and "float" are the only accepted type strings, and each names its own kind. */
  lemma VarTypeAcceptance(s: string, k: VarKind)
    ensures ParseVarType(s).Some? <==> s == "int" || s == "float"
    ensures ParseVarType(s) == Some(k) <==> s == KindName(k)
    ensures ParseVarType(KindName(k)) == Some(k)
  {
  }

  /** The value of one variable and the generator state after its draw: an
      unknown type string panics, a draw that panics fails sampling, and
      otherwise the drawn value is rounded when `round` is set. */
  function SampledValue(spec: VariableSpec, rng: Rng, ext: Externals): (r: Result<(Value, Rng)>)
    ensures r == Err(UnknownVariableType) <==> spec.varType != "int" && spec.varType != "float"
    ensures forall k :: spec.varType == KindName(k) ==>
      match ext.draw(rng, k, spec.low, spec.high)
      case None => r == Err(SamplingFailed)
      case Some((x, rng')) => r == Ok((if spec.round.Some? then ext.roundTo(x, spec.round.value) else x, rng'))
  {
    match ParseVarType(spec.varType)
    case None => Err(UnknownVariableType)
    case Some(kind) =>
      match ext.draw(rng, kind, spec.low, spec.high)
      case None => Err(SamplingFailed)
      case Some(drawn) => Ok((Rounded(drawn.0, spec.round, ext), drawn.1))
  }

  /** The loop of lines 55-66 from the state where `vars` is `acc`, stopping at
      the first panic. */
  function SampledVariables(specs: seq<(string, VariableSpec)>, rng: Rng, acc: Env, ext: Externals): Result<(Env, Rng)>
    decreases |specs|
  {
    if specs == [] then Ok((acc, rng))
    else
      match SampledValue(specs[0].1, rng, ext)
      case Err(e) => Err(e)
      case Ok(sampled) => SampledVariables(specs[1..], sampled.1, Insert(acc, specs[0].0, sampled.0), ext)
  }

  /** Lines 54-66: build `vars` by sampling every variable in iteration order. */
  method SampleVariables(specs: seq<(string, VariableSpec)>, rng0: Rng, ext: Externals) returns (r: Result<(Env, Rng)>)
    ensures r == SampledVariables(specs, rng0, [], ext)
  {
    var vars: Env := [];
    var rng := rng0;
    for i := 0 to |specs|
      invariant SampledVariables(specs, rng0, [], ext) == SampledVariables(specs[i..], rng, vars, ext)
    {
      var (name, spec) := specs[i];
      assert specs[i..][1..] == specs[i + 1..];
      var kind := ParseVarType(spec.varType);
      if kind.None? {
        return Err(UnknownVariableType);
      }
      var drawn := ext.draw(rng, kind.value, spec.low, spec.high);
      if drawn.None? {
        return Err(SamplingFailed);
      }
      var value := Rounded(drawn.value.0, spec.round, ext);
      vars := Insert(vars, name, value);
      rng := drawn.value.1;
    }
    return Ok((vars, rng));
  }

  /** A variable with a type other than "int" or "float" makes sampling fail,
      whatever the generator does. */
  lemma {:induction false} UnknownTypeFails(specs: seq<(string, VariableSpec)>, rng: Rng, acc: Env, ext: Externals, i: nat)
    requires i < |specs| && ParseVarType(specs[i].1.varType).None?
    ensures SampledVariables(specs, rng, acc, ext).Err?
    decreases i
  {
    if i > 0 && SampledValue(specs[0].1, rng, ext).Ok? {
      var sampled := SampledValue(specs[0].1, rng, ext).value;
      assert specs[1..][i - 1] == specs[i];
      UnknownTypeFails(specs[1..], sampled.1, Insert(acc, specs[0].0, sampled.0), ext, i - 1);
    }
  }

  /** When sampling succeeds every variable's type was accepted. */
  lemma {:induction false} SampledVariablesAccepted(specs: seq<(string, VariableSpec)>, rng: Rng, acc: Env, ext: Externals)
    requires SampledVariables(specs, rng, acc, ext).Ok?
    ensures forall i :: 0 <= i < |specs| ==> ParseVarType(specs[i].1.varType).Some?
    decreases |specs|
  {
    if specs != [] {
      var sampled := SampledValue(specs[0].1, rng, ext).value;
      var acc' := Insert(acc, specs[0].0, sampled.0);
      SampledVariablesAccepted(specs[1..], sampled.1, acc', ext);
      forall i | 1 <= i < |specs| ensures ParseVarType(specs[i].1.varType).Some? {
        assert specs[i] == specs[1..][i - 1];
      }
    }
  }

  /** When sampling succeeds `vars` holds exactly the variables' names (besides
      those of `acc`), each once. */
  lemma {:induction false} SampledVariablesShape(specs: seq<(string, VariableSpec)>, rng: Rng, acc: Env, ext: Externals)
    requires SampledVariables(specs, rng, acc, ext).Ok?
    ensures Names(SampledVariables(specs, rng, acc, ext).value.0) == Names(acc) + KeysOf(specs)
    ensures Distinct(acc) ==> Distinct(SampledVariables(specs, rng, acc, ext).value.0)
    decreases |specs|
  {
    if specs != [] {
      var sampled := SampledValue(specs[0].1, rng, ext).value;
      var acc' := Insert(acc, specs[0].0, sampled.0);
      SampledVariablesShape(specs[1..], sampled.1, acc', ext);
      KeysOfCons(specs);
      assert Names(acc') + KeysOf(specs[1..]) == Names(acc) + KeysOf(specs);
    }
  }
}
