/** Evaluating the intermediates of one question (src/main.rs, lines 68-81):
    each formula has its dependencies replaced, as plain substrings and in list
    order, by the printed values of sampled variables, and is then handed to
    the expression evaluator. */
module Intermediates {
  import opened Model
  import opened Strings

  /** Lines 70-74 from the point where the formula is `formula`: the remaining
      dependencies are looked up in `vars`, and only there. */
  function SubstitutedFormula(formula: string, deps: seq<string>, vars: Env, show: Value -> string): Result<string>
    decreases |deps|
  {
    if deps == [] then Ok(formula)
    else
      match Lookup(vars, deps[0])
      case None => Err(UnresolvedDependency(deps[0]))
      case Some(v) => SubstitutedFormula(ReplaceAll(formula, deps[0], show(v)), deps[1..], vars, show)
  }

  /** Lines 70-74: rebind `formula` once per dependency. */
  method SubstituteDependencies(formula0: string, deps: seq<string>, vars: Env, show: Value -> string) returns (r: Result<string>)
    ensures r == SubstitutedFormula(formula0, deps, vars, show)
  {
    var formula := formula0;
    for i := 0 to |deps|
      invariant SubstitutedFormula(formula0, deps, vars, show) == SubstitutedFormula(formula, deps[i..], vars, show)
    {
      assert deps[i..][1..] == deps[i + 1..];
      var value := Lookup(vars, deps[i]);
      if value.None? {
        return Err(UnresolvedDependency(deps[i]));
      }
      formula := ReplaceAll(formula, deps[i], show(value.value));
    }
    return Ok(formula);
  }

  /** The value of one intermediate: lines 70-79. */
  function EvaluatedIntermediate(spec: IntermediateSpec, vars: Env, ext: Externals): Result<Value> {
    match SubstitutedFormula(spec.formula, spec.dependencies, vars, ext.show)
    case Err(e) => Err(e)
    case Ok(formula) =>
      match ext.eval(formula)
      case None => Err(FormulaEvaluationError(formula))
      case Some(x) => Ok(Rounded(x, spec.round, ext))
  }

  /** The loop of lines 69-81 from the state where `intermediates` is `acc`. */
  function EvaluatedIntermediates(specs: seq<(string, IntermediateSpec)>, vars: Env, acc: Env, ext: Externals): Result<Env>
    decreases |specs|
  {
    if specs == [] then Ok(acc)
    else
      match EvaluatedIntermediate(specs[0].1, vars, ext)
      case Err(e) => Err(e)
      case Ok(x) => EvaluatedIntermediates(specs[1..], vars, Insert(acc, specs[0].0, x), ext)
  }

  /** Lines 68-81: build `intermediates` in iteration order. */
  method EvaluateIntermediates(specs: seq<(string, IntermediateSpec)>, vars: Env, ext: Externals) returns (r: Result<Env>)
    ensures r == EvaluatedIntermediates(specs, vars, [], ext)
  {
    var intermediates: Env := [];
    for i := 0 to |specs|
      invariant EvaluatedIntermediates(specs, vars, [], ext) == EvaluatedIntermediates(specs[i..], vars, intermediates, ext)
    {
      var (name, spec) := specs[i];
      assert specs[i..][1..] == specs[i + 1..];
      var formula := SubstituteDependencies(spec.formula, spec.dependencies, vars, ext.show);
      if formula.Err? {
        return Err(formula.error);
      }
      var value := ext.eval(formula.value);
      if value.None? {
        return Err(FormulaEvaluationError(formula.value));
      }
      intermediates := Insert(intermediates, name, Rounded(value.value, spec.round, ext));
    }
    return Ok(intermediates);
  }

  /** Substitution fails exactly when some dependency is not the name of a
      sampled variable, and then it reports the first such dependency. */
  lemma {:induction false} UnresolvedDependencyIff(formula: string, deps: seq<string>, vars: Env, show: Value -> string)
    ensures SubstitutedFormula(formula, deps, vars, show).Err? <==>
      exists i :: 0 <= i < |deps| && deps[i] !in Names(vars)
    ensures SubstitutedFormula(formula, deps, vars, show).Err? ==>
      exists i :: 0 <= i < |deps| && deps[i] !in Names(vars) &&
        SubstitutedFormula(formula, deps, vars, show).error == UnresolvedDependency(deps[i]) &&
        forall j :: 0 <= j < i ==> deps[j] in Names(vars)
    decreases |deps|
  {
    if deps != [] {
      assert forall i :: 1 <= i < |deps| ==> deps[1..][i - 1] == deps[i];
      match Lookup(vars, deps[0])
      case None =>
        assert deps[0] !in Names(vars);
      case Some(v) =>
        UnresolvedDependencyIff(ReplaceAll(formula, deps[0], show(v)), deps[1..], vars, show);
        if SubstitutedFormula(formula, deps, vars, show).Err? {
          var i :| 0 <= i < |deps[1..]| && deps[1..][i] !in Names(vars) &&
            SubstitutedFormula(formula, deps, vars, show).error == UnresolvedDependency(deps[1..][i]) &&
            forall j :: 0 <= j < i ==> deps[1..][j] in Names(vars);
          assert deps[i + 1] !in Names(vars);
        } else {
          forall i | 0 <= i < |deps| ensures deps[i] in Names(vars) {
            if i > 0 {
              assert deps[1..][i - 1] == deps[i];
            }
          }
        }
    }
  }

  /** A dependency that names an intermediate, or anything else that is not a
      sampled variable, makes the run's evaluation of that intermediate fail
      before the evaluator is called, whatever the formula. */
  lemma DependencyOutsideVariablesFails(spec: IntermediateSpec, vars: Env, ext: Externals, d: string)
    requires d in spec.dependencies && d !in Names(vars)
    ensures EvaluatedIntermediate(spec, vars, ext).Err?
    ensures EvaluatedIntermediate(spec, vars, ext).error.UnresolvedDependency?
  {
    var i :| 0 <= i < |spec.dependencies| && spec.dependencies[i] == d;
    UnresolvedDependencyIff(spec.formula, spec.dependencies, vars, ext.show);
  }

  /** One intermediate that fails makes the whole loop fail. */
  lemma {:induction false} FailingIntermediateFails(specs: seq<(string, IntermediateSpec)>, vars: Env, acc: Env, ext: Externals, i: nat)
    requires i < |specs| && EvaluatedIntermediate(specs[i].1, vars, ext).Err?
    ensures EvaluatedIntermediates(specs, vars, acc, ext).Err?
    decreases i
  {
    if i > 0 && EvaluatedIntermediate(specs[0].1, vars, ext).Ok? {
      assert specs[1..][i - 1] == specs[i];
      var x := EvaluatedIntermediate(specs[0].1, vars, ext).value;
      FailingIntermediateFails(specs[1..], vars, Insert(acc, specs[0].0, x), ext, i - 1);
    }
  }

  /** When evaluation succeeds every intermediate evaluated. */
  lemma {:induction false} EvaluatedIntermediatesAll(specs: seq<(string, IntermediateSpec)>, vars: Env, acc: Env, ext: Externals)
    requires EvaluatedIntermediates(specs, vars, acc, ext).Ok?
    ensures forall i :: 0 <= i < |specs| ==> EvaluatedIntermediate(specs[i].1, vars, ext).Ok?
    decreases |specs|
  {
    if specs != [] {
      var x := EvaluatedIntermediate(specs[0].1, vars, ext).value;
      EvaluatedIntermediatesAll(specs[1..], vars, Insert(acc, specs[0].0, x), ext);
      forall i | 1 <= i < |specs| ensures EvaluatedIntermediate(specs[i].1, vars, ext).Ok? {
        assert specs[i] == specs[1..][i - 1];
      }
    }
  }

  /** When evaluation succeeds, `intermediates` holds exactly the intermediates'
      names (besides those of `acc`), each once. */
  lemma {:induction false} EvaluatedIntermediatesShape(specs: seq<(string, IntermediateSpec)>, vars: Env, acc: Env, ext: Externals)
    requires EvaluatedIntermediates(specs, vars, acc, ext).Ok?
    ensures Names(EvaluatedIntermediates(specs, vars, acc, ext).value) == Names(acc) + KeysOf(specs)
    ensures Distinct(acc) ==> Distinct(EvaluatedIntermediates(specs, vars, acc, ext).value)
    decreases |specs|
  {
    if specs != [] {
      var x := EvaluatedIntermediate(specs[0].1, vars, ext).value;
      var acc' := Insert(acc, specs[0].0, x);
      EvaluatedIntermediatesShape(specs[1..], vars, acc', ext);
      KeysOfCons(specs);
      assert Names(acc') + KeysOf(specs[1..]) == Names(acc) + KeysOf(specs);
    }
  }

  lemma TailKeys<S>(specs: seq<(string, S)>)
    requires specs != [] && DistinctKeys(specs)
    ensures specs[0].0 !in KeysOf(specs[1..]) && DistinctKeys(specs[1..])
  {
    forall e | e in specs[1..] ensures e.0 != specs[0].0 {
      var k :| 0 <= k < |specs[1..]| && specs[1..][k] == e;
      assert specs[k + 1] == e;
    }
    forall i, j | 0 <= i < j < |specs[1..]| ensures specs[1..][i].0 != specs[1..][j].0 {
      assert specs[1..][i] == specs[i + 1] && specs[1..][j] == specs[j + 1];
    }
  }

  /** Loop iterations leave the names they do not insert alone. */
  lemma {:induction false} EvaluatedIntermediatesKeep(specs: seq<(string, IntermediateSpec)>, vars: Env, acc: Env, ext: Externals, n: string)
    requires EvaluatedIntermediates(specs, vars, acc, ext).Ok? && n !in KeysOf(specs)
    ensures Lookup(EvaluatedIntermediates(specs, vars, acc, ext).value, n) == Lookup(acc, n)
    decreases |specs|
  {
    if specs != [] {
      var x := EvaluatedIntermediate(specs[0].1, vars, ext).value;
      assert specs[0] in specs;
      assert forall e :: e in specs[1..] ==> e in specs;
      EvaluatedIntermediatesKeep(specs[1..], vars, Insert(acc, specs[0].0, x), ext, n);
    }
  }

  /** With distinct intermediate names, each one's value in `intermediates` is
      its own evaluation: what the other intermediates evaluate to does not
      matter, since formulas see only `vars`. */
  lemma {:induction false} EvaluatedIntermediatesValues(specs: seq<(string, IntermediateSpec)>, vars: Env, acc: Env, ext: Externals, i: nat)
    requires EvaluatedIntermediates(specs, vars, acc, ext).Ok? && DistinctKeys(specs) && i < |specs|
    ensures EvaluatedIntermediate(specs[i].1, vars, ext).Ok?
    ensures Lookup(EvaluatedIntermediates(specs, vars, acc, ext).value, specs[i].0) == Some(EvaluatedIntermediate(specs[i].1, vars, ext).value)
    decreases i
  {
    var x := EvaluatedIntermediate(specs[0].1, vars, ext).value;
    TailKeys(specs);
    if i == 0 {
      EvaluatedIntermediatesKeep(specs[1..], vars, Insert(acc, specs[0].0, x), ext, specs[0].0);
    } else {
      assert specs[1..][i - 1] == specs[i];
      EvaluatedIntermediatesValues(specs[1..], vars, Insert(acc, specs[0].0, x), ext, i - 1);
    }
  }

  lemma {:induction false} FreeOfDependenciesAux(formula: string, deps: seq<string>, gone: seq<string>, vars: Env, show: Value -> string)
    requires forall d, e :: (d in deps || d in gone) && e in vars ==> d != [] && CannotRecreate(d, show(e.1))
    requires forall g :: g in gone ==> !Contains(formula, g)
    requires SubstitutedFormula(formula, deps, vars, show).Ok?
    ensures forall d :: d in deps || d in gone ==> !Contains(SubstitutedFormula(formula, deps, vars, show).value, d)
    decreases |deps|
  {
    if deps != [] {
      var v := Lookup(vars, deps[0]).value;
      assert (deps[0], v) in vars && deps[0] in deps;
      var next := ReplaceAll(formula, deps[0], show(v));
      ReplaceAllRemoves(formula, deps[0], show(v));
      forall g | g in gone ensures !Contains(next, g) {
        ReplaceAllKeepsAbsent(formula, deps[0], show(v), g);
      }
      assert forall d :: d in deps <==> d == deps[0] || d in deps[1..];
      assert forall d :: d in gone + [deps[0]] <==> d == deps[0] || d in gone;
      FreeOfDependenciesAux(next, deps[1..], gone + [deps[0]], vars, show);
    }
  }

  /** When no value string of `vars` can recreate a dependency name (for
      instance when none shares a character with it), the formula handed to
      the evaluator contains none of the dependency names. */
  lemma FormulaFreeOfDependencies(formula: string, deps: seq<string>, vars: Env, show: Value -> string)
    requires forall d, e :: d in deps && e in vars ==> d != [] && CannotRecreate(d, show(e.1))
    requires SubstitutedFormula(formula, deps, vars, show).Ok?
    ensures forall d :: d in deps ==> !Contains(SubstitutedFormula(formula, deps, vars, show).value, d)
  {
    FreeOfDependenciesAux(formula, deps, [], vars, show);
  }
}
