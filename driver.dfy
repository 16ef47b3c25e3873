/** The body of `main` (src/main.rs, lines 37-113) without its file I/O: the
    generator is seeded, every question is rendered `num_problems` times in
    order, each rendering is pushed as three sections, and the document is
    closed. */
module Driver {
  import opened Model
  import opened Strings
  import opened Sampling
  import opened Intermediates
  import opened Placeholders
  import opened Tex

  /** Lines 38-40. `columns` is never read. */
  const SeedValue: U64 := 42
  const NumProblems: nat := 1

  /** One question rendered from generator state `rng` (lines 54-105): its three
      texts and the generator state after its draws. */
  function RenderedQuestion(q: Question, rng: Rng, ext: Externals): Result<(Triple, Rng)> {
    match SampledVariables(q.variables, rng, [], ext)
    case Err(e) => Err(e)
    case Ok(sampled) =>
      var vars := sampled.0;
      match EvaluatedIntermediates(q.intermediates, vars, [], ext)
      case Err(e) => Err(e)
      case Ok(intermediates) =>
        Ok((Triple(Substituted(q.question, vars, intermediates, ext),
                   Substituted(q.answer, vars, intermediates, ext),
                   Substituted(q.solution, vars, intermediates, ext)), sampled.1))
  }

  /** Lines 54-105 for one question. */
  method ProcessQuestion(q: Question, rng: Rng, ext: Externals) returns (r: Result<(Triple, Rng)>)
    ensures r == RenderedQuestion(q, rng, ext)
  {
    var sampled := SampleVariables(q.variables, rng, ext);
    if sampled.Err? {
      return Err(sampled.error);
    }
    var (vars, rng') := sampled.value;
    var intermediates := EvaluateIntermediates(q.intermediates, vars, ext);
    if intermediates.Err? {
      return Err(intermediates.error);
    }
    var questionText := SubstitutePlaceholders(q.question, vars, intermediates.value, ext);
    var answerText := SubstitutePlaceholders(q.answer, vars, intermediates.value, ext);
    var solutionText := SubstitutePlaceholders(q.solution, vars, intermediates.value, ext);
    return Ok((Triple(questionText, answerText, solutionText), rng'));
  }

  /** The questions in the order the two nested loops of lines 52-53 visit them. */
  function Repeat(qs: seq<Question>, n: nat): seq<Question> {
    if n == 0 then [] else qs + Repeat(qs, n - 1)
  }

  /** The renderings of `list` in order, one generator threaded through all of
      them, stopping at the first panic. */
  function Rendered(list: seq<Question>, rng: Rng, ext: Externals): Result<seq<Triple>>
    decreases |list|
  {
    if list == [] then Ok([])
    else
      match RenderedQuestion(list[0], rng, ext)
      case Err(e) => Err(e)
      case Ok(first) => Prefixed([first.0], Rendered(list[1..], first.1, ext))
  }

  function Prefixed(done: seq<Triple>, r: Result<seq<Triple>>): Result<seq<Triple>> {
    match r
    case Err(e) => Err(e)
    case Ok(ts) => Ok(done + ts)
  }

  /** What `main` writes to output.tex, or the panic that stops it first. */
  function Worksheet(seed: U64, n: nat, qs: seq<Question>, ext: Externals): Result<string> {
    match Rendered(Repeat(qs, n), ext.seedRng(seed), ext)
    case Err(e) => Err(e)
    case Ok(ts) => Ok(Document(seed, ts))
  }

  /** What `main` writes when `tex_content` already holds `tex` and the
      questions still to be rendered come out as `rest`. */
  function Finished(tex: string, rest: Result<seq<Triple>>): Result<string> {
    match rest
    case Err(e) => Err(e)
    case Ok(ts) => Ok(tex + Blocks(ts) + EndMarker)
  }

  lemma BlocksCons(t: Triple, ts: seq<Triple>)
    ensures Blocks([t] + ts) == Block(t) + Blocks(ts)
  {
    BlocksAppend([t], ts);
    assert [t][..0] == [];
  }

  /** One pass through the inner loop's body, on the specification side:
      rendering the next question either fails the run or moves its block
      into `tex`. */
  lemma FinishedStep(tex: string, list: seq<Question>, rng: Rng, ext: Externals)
    requires list != []
    ensures RenderedQuestion(list[0], rng, ext).Err? ==>
      Finished(tex, Rendered(list, rng, ext)) == Err(RenderedQuestion(list[0], rng, ext).error)
    ensures RenderedQuestion(list[0], rng, ext).Ok? ==>
      var first := RenderedQuestion(list[0], rng, ext).value;
      Finished(tex, Rendered(list, rng, ext)) == Finished(tex + Block(first.0), Rendered(list[1..], first.1, ext))
  {
    var q := RenderedQuestion(list[0], rng, ext);
    if q.Ok? {
      var (t, rng') := q.value;
      var r := Rendered(list[1..], rng', ext);
      assert Rendered(list, rng, ext) == Prefixed([t], r);
      if r.Ok? {
        BlocksCons(t, r.value);
        Associative(tex, Block(t), Blocks(r.value));
      }
    }
  }

  /** Where the loops of `Generate` start and end, on the specification side. */
  lemma FinishedBounds(seed: U64, n: nat, qs: seq<Question>, tex: string, rng: Rng, ext: Externals)
    ensures Worksheet(seed, n, qs, ext) == Finished(Preamble + SeedLine(seed), Rendered(Repeat(qs, n), ext.seedRng(seed), ext))
    ensures Finished(tex, Rendered(Repeat(qs, 0), rng, ext)) == Ok(tex + EndMarker)
  {
    AppendEmpty(Blocks([]));
    assert tex + Blocks([]) == tex;
  }

  /** One pass of the outer loop (lines 53-110) from `tex` and generator state
      `rng`: each question rendered in order and its three sections pushed,
      giving the text and the generator state after the pass, or the first
      panic. */
  function Round(tex: string, qs: seq<Question>, rng: Rng, ext: Externals): Result<(string, Rng)>
    decreases |qs|
  {
    if qs == [] then Ok((tex, rng))
    else
      match RenderedQuestion(qs[0], rng, ext)
      case Err(e) => Err(e)
      case Ok(first) => Round(tex + Block(first.0), qs[1..], first.1, ext)
  }

  /** What `main` writes after a pass that ended in `round`, with `later` the
      questions of the passes still to come. */
  function AfterRound(round: Result<(string, Rng)>, later: seq<Question>, ext: Externals): Result<string> {
    match round
    case Err(e) => Err(e)
    case Ok((tex, rng)) => Finished(tex, Rendered(later, rng, ext))
  }

  /** A pass is the first `|qs|` renderings of the rest of the run: its panic
      is the run's, and otherwise the run goes on from the text and the
      generator state the pass ends with. */
  lemma {:induction false} RoundThenRest(tex: string, qs: seq<Question>, later: seq<Question>, rng: Rng, ext: Externals)
    ensures Finished(tex, Rendered(qs + later, rng, ext)) == AfterRound(Round(tex, qs, rng, ext), later, ext)
    decreases |qs|
  {
    if qs == [] {
      assert qs + later == later;
    } else {
      var list := qs + later;
      assert list[0] == qs[0] && list[1..] == qs[1..] + later;
      FinishedStep(tex, list, rng, ext);
      var first := RenderedQuestion(qs[0], rng, ext);
      if first.Ok? {
        RoundThenRest(tex + Block(first.value.0), qs[1..], later, first.value.1, ext);
      }
    }
  }

  /** Lines 53-110 for one pass. */
  method RenderRound(tex0: string, qs: seq<Question>, rng0: Rng, ext: Externals) returns (r: Result<(string, Rng)>)
    ensures r == Round(tex0, qs, rng0, ext)
  {
    var tex, rng := tex0, rng0;
    assert qs[0..] == qs;
    for j := 0 to |qs|
      invariant Round(tex0, qs, rng0, ext) == Round(tex, qs[j..], rng, ext)
    {
      assert qs[j..][0] == qs[j] && qs[j..][1..] == qs[j + 1..];
      var rendered := ProcessQuestion(qs[j], rng, ext);
      if rendered.Err? {
        return Err(rendered.error);
      }
      tex := tex + Block(rendered.value.0);
      rng := rendered.value.1;
    }
    return Ok((tex, rng));
  }

  /** Lines 41 and 47-113 with the seed and repetition count as parameters. */
  method Generate(seed: U64, n: nat, qs: seq<Question>, ext: Externals) returns (r: Result<string>)
    ensures r == Worksheet(seed, n, qs, ext)
  {
    var rng := ext.seedRng(seed);
    var tex := Preamble;
    tex := tex + SeedLine(seed);
    FinishedBounds(seed, n, qs, tex, rng, ext);
    for k := 0 to n
      invariant Worksheet(seed, n, qs, ext) == Finished(tex, Rendered(Repeat(qs, n - k), rng, ext))
    {
      assert Repeat(qs, n - k) == qs + Repeat(qs, n - (k + 1));
      RoundThenRest(tex, qs, Repeat(qs, n - (k + 1)), rng, ext);
      var round := RenderRound(tex, qs, rng, ext);
      if round.Err? {
        return Err(round.error);
      }
      tex, rng := round.value.0, round.value.1;
    }
    FinishedBounds(seed, n, qs, tex, rng, ext);
    tex := tex + EndMarker;
    return Ok(tex);
  }

  /** The program as written: seed 42, one repetition. */
  method Run(qs: seq<Question>, ext: Externals) returns (r: Result<string>)
    ensures r == Worksheet(SeedValue, NumProblems, qs, ext)
  {
    r := Generate(SeedValue, NumProblems, qs, ext);
  }

  /** The program as written records seed 42 after the preamble. */
  lemma RunRecordsSeed(qs: seq<Question>, ext: Externals)
    ensures Worksheet(SeedValue, NumProblems, qs, ext).Ok? ==>
      RecordedSeed(Worksheet(SeedValue, NumProblems, qs, ext).value) == Some(42)
  {
    var r := Rendered(Repeat(qs, NumProblems), ext.seedRng(SeedValue), ext);
    if r.Ok? {
      SeedRecorded(SeedValue, r.value);
    }
  }

  /** Euclidean remainders are unique. */
  lemma ModUnique(i: int, w: int, k: int, r: int)
    requires 0 <= r < w && i == w * k + r
    ensures i % w == r
  {
    var d := k - i / w;
    assert w * d == i % w - r;
  }

  lemma ModShift(i: int, w: int)
    requires 0 < w <= i
    ensures (i - w) % w == i % w
  {
    var k, r := (i - w) / w, (i - w) % w;
    assert i == w * (k + 1) + r;
    ModUnique(i, w, k + 1, r);
  }

  lemma {:induction false} RepeatLength(qs: seq<Question>, n: nat)
    ensures |Repeat(qs, n)| == n * |qs|
  {
    if n > 0 {
      RepeatLength(qs, n - 1);
      assert n * |qs| == (n - 1) * |qs| + |qs|;
    }
  }

  /** The visiting order of the nested loops: `n` rounds of the questions in
      order, so position `i` holds question `i % |qs|` of round `i / |qs|`. */
  lemma {:induction false} RepeatIndex(qs: seq<Question>, n: nat, i: nat)
    requires 0 < |qs| && i < |Repeat(qs, n)|
    ensures Repeat(qs, n)[i] == qs[i % |qs|]
  {
    var w := |qs|;
    if i >= w {
      RepeatIndex(qs, n - 1, i - w);
      ModShift(i, w);
    } else {
      assert i % w == i;
    }
  }

  /** `t` is what question `q` renders to from some generator state. */
  ghost predicate RenderedFrom(t: Triple, q: Question, ext: Externals) {
    exists rng :: RenderedQuestion(q, rng, ext).Ok? && RenderedQuestion(q, rng, ext).value.0 == t
  }

  lemma RenderedFromState(q: Question, rng: Rng, ext: Externals)
    requires RenderedQuestion(q, rng, ext).Ok?
    ensures RenderedFrom(RenderedQuestion(q, rng, ext).value.0, q, ext)
  {
  }

  /** A successful run renders every question of the list once, in order. */
  lemma {:induction false} RenderedLayout(list: seq<Question>, rng: Rng, ext: Externals)
    requires Rendered(list, rng, ext).Ok?
    ensures |Rendered(list, rng, ext).value| == |list|
    ensures forall i :: 0 <= i < |list| ==> RenderedFrom(Rendered(list, rng, ext).value[i], list[i], ext)
    decreases |list|
  {
    if list != [] {
      FinishedStep([], list, rng, ext);
      var (t, rng') := RenderedQuestion(list[0], rng, ext).value;
      var rest := Rendered(list[1..], rng', ext).value;
      var ts := Rendered(list, rng, ext).value;
      assert ts == [t] + rest;
      RenderedLayout(list[1..], rng', ext);
      RenderedFromState(list[0], rng, ext);
      forall i | 0 <= i < |list| ensures RenderedFrom(ts[i], list[i], ext) {
        if i > 0 {
          assert ts[i] == rest[i - 1] && list[i] == list[1..][i - 1];
        }
      }
    }
  }

  /** The document holds `num_problems * |questions|` renderings between its
      fixed opening and end marker; rendering `i` is of question `i % |questions|`. */
  lemma WorksheetLayout(seed: U64, n: nat, qs: seq<Question>, ext: Externals)
    requires Worksheet(seed, n, qs, ext).Ok?
    ensures Rendered(Repeat(qs, n), ext.seedRng(seed), ext).Ok?
    ensures var ts := Rendered(Repeat(qs, n), ext.seedRng(seed), ext).value;
      && Worksheet(seed, n, qs, ext).value == Document(seed, ts)
      && |ts| == n * |qs|
      && forall i :: 0 <= i < |ts| ==> RenderedFrom(ts[i], qs[i % |qs|], ext)
  {
    RepeatLength(qs, n);
    RenderedLayout(Repeat(qs, n), ext.seedRng(seed), ext);
    forall i | 0 <= i < n * |qs| ensures Repeat(qs, n)[i] == qs[i % |qs|] {
      RepeatIndex(qs, n, i);
    }
  }

  /** A question that fails from every generator state. */
  ghost predicate AlwaysFails(q: Question, ext: Externals) {
    forall rng :: RenderedQuestion(q, rng, ext).Err?
  }

  lemma {:induction false} FailingQuestionFails(list: seq<Question>, rng: Rng, ext: Externals, i: nat)
    requires i < |list| && AlwaysFails(list[i], ext)
    ensures Rendered(list, rng, ext).Err?
    decreases i
  {
    if i > 0 && RenderedQuestion(list[0], rng, ext).Ok? {
      var (t, rng') := RenderedQuestion(list[0], rng, ext).value;
      assert list[1..][i - 1] == list[i];
      FailingQuestionFails(list[1..], rng', ext, i - 1);
    }
  }

  /** A variable of unknown type makes its question fail, whatever was drawn before. */
  lemma UnknownTypeAlwaysFails(q: Question, ext: Externals, i: nat)
    requires i < |q.variables| && ParseVarType(q.variables[i].1.varType).None?
    ensures AlwaysFails(q, ext)
  {
    forall rng ensures RenderedQuestion(q, rng, ext).Err? {
      UnknownTypeFails(q.variables, rng, [], ext, i);
    }
  }

  /** An intermediate depending on a name that is not one of the question's
      variables (another intermediate, say) makes its question fail. */
  lemma DependencyOutsideVariablesAlwaysFails(q: Question, ext: Externals, i: nat, d: string)
    requires i < |q.intermediates| && d in q.intermediates[i].1.dependencies && d !in KeysOf(q.variables)
    ensures AlwaysFails(q, ext)
  {
    forall rng ensures RenderedQuestion(q, rng, ext).Err? {
      var sampled := SampledVariables(q.variables, rng, [], ext);
      if sampled.Ok? {
        SampledVariablesShape(q.variables, rng, [], ext);
        DependencyOutsideVariablesFails(q.intermediates[i].1, sampled.value.0, ext, d);
        FailingIntermediateFails(q.intermediates, sampled.value.0, [], ext, i);
      }
    }
  }

  /** One question that always fails means `main` panics before writing
      anything, once there is at least one repetition. */
  lemma FailingQuestionAbortsWorksheet(seed: U64, n: nat, qs: seq<Question>, ext: Externals, j: nat)
    requires 0 < n && j < |qs| && AlwaysFails(qs[j], ext)
    ensures Worksheet(seed, n, qs, ext).Err?
  {
    assert Repeat(qs, n)[j] == qs[j];
    FailingQuestionFails(Repeat(qs, n), ext.seedRng(seed), ext, j);
  }

  /** The variables sampled and the intermediates evaluated for a question
      that renders (the maps `vars` and `intermediates` of lines 55-82). */
  ghost function Tables(q: Question, rng: Rng, ext: Externals): (Env, Env)
    requires RenderedQuestion(q, rng, ext).Ok?
  {
    var vars := SampledVariables(q.variables, rng, [], ext).value.0;
    (vars, EvaluatedIntermediates(q.intermediates, vars, [], ext).value)
  }

  /** The printed values that a rendering of `q` substitutes into its texts. */
  ghost function Printed(q: Question, rng: Rng, ext: Externals): set<string>
    requires RenderedQuestion(q, rng, ext).Ok?
  {
    var t := Tables(q, rng, ext);
    set e | e in t.0 + t.1 :: ext.show(e.1)
  }

  /** The three texts of a question go through one and the same substitution:
      the sampled variables (one entry per variable, each once) and then the
      intermediates (one entry per intermediate, each once). */
  lemma RenderedTables(q: Question, rng: Rng, ext: Externals) returns (vars: Env, intermediates: Env)
    requires RenderedQuestion(q, rng, ext).Ok?
    ensures (vars, intermediates) == Tables(q, rng, ext)
    ensures Names(vars) == KeysOf(q.variables) && Distinct(vars)
    ensures Names(intermediates) == KeysOf(q.intermediates) && Distinct(intermediates)
    ensures RenderedQuestion(q, rng, ext).value.0 == Triple(
      Substituted(q.question, vars, intermediates, ext),
      Substituted(q.answer, vars, intermediates, ext),
      Substituted(q.solution, vars, intermediates, ext))
  {
    vars := SampledVariables(q.variables, rng, [], ext).value.0;
    SampledVariablesShape(q.variables, rng, [], ext);
    intermediates := EvaluatedIntermediates(q.intermediates, vars, [], ext).value;
    EvaluatedIntermediatesShape(q.intermediates, vars, [], ext);
    assert Names([]) == {};
  }

  /** When none of the values printed for this rendering holds a bracket or
      lies inside a key of the question, no placeholder of a variable or
      intermediate is left in any of its three texts. */
  lemma RenderedQuestionRemovesKnown(q: Question, rng: Rng, ext: Externals)
    requires IteratesEntries(ext)
    requires RenderedQuestion(q, rng, ext).Ok?
    requires forall p :: p in Printed(q, rng, ext) ==> NoBrackets(p)
    requires forall n, p :: n in KeysOf(q.variables) + KeysOf(q.intermediates) && p in Printed(q, rng, ext) ==> !Contains(n, p)
    ensures forall n :: n in KeysOf(q.variables) + KeysOf(q.intermediates) ==>
      var t := RenderedQuestion(q, rng, ext).value.0;
      !Contains(t.question, Placeholder(n)) && !Contains(t.answer, Placeholder(n)) && !Contains(t.solution, Placeholder(n))
  {
    var vars, intermediates := RenderedTables(q, rng, ext);
    forall n, e | (n in Names(vars) || n in Names(intermediates)) && (e in vars || e in intermediates)
      ensures NoBrackets(ext.show(e.1)) && !Contains(n, ext.show(e.1))
    {
      assert e in vars + intermediates;
      assert ext.show(e.1) in Printed(q, rng, ext);
      assert n in KeysOf(q.variables) + KeysOf(q.intermediates);
    }
    SubstitutedRemovesKnown(q.question, vars, intermediates, ext);
    SubstitutedRemovesKnown(q.answer, vars, intermediates, ext);
    SubstitutedRemovesKnown(q.solution, vars, intermediates, ext);
  }

  /** The printed value that `[x]` stands for in this rendering: the
      variable's when `x` is a variable, since the variables are substituted
      first, and otherwise the intermediate's. */
  ghost function ShownValue(q: Question, rng: Rng, ext: Externals, x: string): string
    requires RenderedQuestion(q, rng, ext).Ok?
  {
    var t := Tables(q, rng, ext);
    match Lookup(t.0, x)
    case Some(v) => ext.show(v)
    case None =>
      match Lookup(t.1, x)
      case Some(v) => ext.show(v)
      case None => []
  }

  /** Each placeholder of a variable or an intermediate in a text of the
      question becomes its printed value in the rendered text, when the keys
      are bracket-free and that value is non-empty, bracket-free and inside no
      key. */
  lemma RenderedQuestionShowsValues(q: Question, rng: Rng, ext: Externals, x: string)
    requires IteratesEntries(ext)
    requires RenderedQuestion(q, rng, ext).Ok?
    requires forall n :: n in KeysOf(q.variables) + KeysOf(q.intermediates) ==> NoBrackets(n)
    requires x in KeysOf(q.variables) + KeysOf(q.intermediates)
    requires ShownValue(q, rng, ext, x) != [] && NoBrackets(ShownValue(q, rng, ext, x))
    requires forall n :: n in KeysOf(q.variables) + KeysOf(q.intermediates) ==> !Contains(n, ShownValue(q, rng, ext, x))
    ensures var t := RenderedQuestion(q, rng, ext).value.0;
      var w := ShownValue(q, rng, ext, x);
      && (Contains(q.question, Placeholder(x)) ==> Contains(t.question, w))
      && (Contains(q.answer, Placeholder(x)) ==> Contains(t.answer, w))
      && (Contains(q.solution, Placeholder(x)) ==> Contains(t.solution, w))
  {
    var vars, intermediates := RenderedTables(q, rng, ext);
    NamesOfEntries(vars);
    NamesOfEntries(intermediates);
    var texts := [q.question, q.answer, q.solution];
    if x in Names(vars) {
      var v := Lookup(vars, x).value;
      forall text | text in texts && Contains(text, Placeholder(x))
        ensures Contains(Substituted(text, vars, intermediates, ext), ext.show(v))
      {
        SubstitutedShowsVariable(text, vars, intermediates, ext, x, v);
      }
    } else {
      var v := Lookup(intermediates, x).value;
      forall text | text in texts && Contains(text, Placeholder(x))
        ensures Contains(Substituted(text, vars, intermediates, ext), ext.show(v))
      {
        SubstitutedShowsIntermediate(text, vars, intermediates, ext, x, v);
      }
    }
  }

  /** A placeholder whose bracket-free name is not a key of the question
      survives in each text it occurs in. */
  lemma RenderedQuestionKeepsUnknown(q: Question, rng: Rng, ext: Externals, u: string)
    requires IteratesEntries(ext)
    requires NoBrackets(u) && u !in KeysOf(q.variables) && u !in KeysOf(q.intermediates)
    requires forall n :: n in KeysOf(q.variables) + KeysOf(q.intermediates) ==> NoBrackets(n)
    requires RenderedQuestion(q, rng, ext).Ok?
    ensures var t := RenderedQuestion(q, rng, ext).value.0;
      && (Contains(q.question, Placeholder(u)) ==> Contains(t.question, Placeholder(u)))
      && (Contains(q.answer, Placeholder(u)) ==> Contains(t.answer, Placeholder(u)))
      && (Contains(q.solution, Placeholder(u)) ==> Contains(t.solution, Placeholder(u)))
  {
    var vars, intermediates := RenderedTables(q, rng, ext);
    NamesOfEntries(vars);
    NamesOfEntries(intermediates);
    if Contains(q.question, Placeholder(u)) {
      SubstitutedKeepsUnknown(q.question, vars, intermediates, ext, u);
    }
    if Contains(q.answer, Placeholder(u)) {
      SubstitutedKeepsUnknown(q.answer, vars, intermediates, ext, u);
    }
    if Contains(q.solution, Placeholder(u)) {
      SubstitutedKeepsUnknown(q.solution, vars, intermediates, ext, u);
    }
  }
}
