# worksheet-creator in Dafny

worksheet-creator reads question templates and writes one LaTeX worksheet,
`output.tex`. Each template has:

- variables, each with a type (`"int"` or `"float"`), a range and an optional rounding;
- intermediates, each a formula over named dependencies;
- three texts (question, answer, solution) containing `[name]` placeholders.

The whole program is `main` in `src/main.rs`. This project models the body of
`main`, the part that builds the document:

- **Strings** (`strings.dfy`): Rust's `str::replace` as `ReplaceAll`, and what
  replacing does to the occurrences of a pattern.
- **Sampling** (`sampling.dfy`): the type dispatch and the loop that fills `vars`.
- **Intermediates** (`intermediates.dfy`): a formula's dependencies are replaced,
  as plain substrings and in list order, by the printed values of sampled
  variables; the formula is then evaluated, and the loop fills `intermediates`.
- **Placeholders** (`placeholders.dfy`): the two loops that rebind a text, first
  over `vars` and then over `intermediates`.
- **Tex** (`tex.dfy`): the preamble, the seed line, three sections per
  question, and the end marker.
- **Driver** (`driver.dfy`): the nested repetition and question loops, the one
  generator threaded through every draw, and the program's constants.
- **Model** (`model.dfy`): the template records, the hash maps as sequences of
  entries, and the collaborators that are not modelled.

Every loop of `main` is a `method` with a `for` loop. Each is proved equal to a
recursive specification function. The properties of the program are lemmas
about those functions. A panic (`panic!`, or `unwrap` on `None` or `Err`) is an
`Err` result, and the run then writes nothing.

The collaborators are fields of `Model.Externals`, passed in as parameters:

- `seedRng` and `draw` stand for `StdRng` and `gen_range`;
- `roundTo` stands for the `powi`/`round` rounding;
- `eval` stands for `meval::eval_str`;
- `show` stands for `f64::to_string`;
- `order` is the order in which a hash map is iterated.

Properties that depend on them state what they assume as preconditions. An
example is `IteratesEntries`: iteration is a permutation of a table's entries.

## Model

| member | source | states |
|---|---|---|
| Model.Lookup | src/main.rs:72 | `get` finds a value exactly when the name was inserted; the value found is that name's entry, and the only one when names are distinct |
| Model.NamesAreKeys | src/main.rs:65 | the names entered in a table are its keys, and entering each name once is having pairwise different keys |
| Model.OrderedEntries | src/main.rs:84 | iterating a table visits exactly its entries, as many as it holds |
| Model.Insert | src/main.rs:65 | after `insert` the name maps to the new value, every other name keeps its value, the names grow by exactly that name, and distinct names stay distinct |
| Sampling.VarTypeAcceptance | src/main.rs:56-59 | `"int"` and `"float"` are the only accepted type strings, and each selects its own kind |
| Sampling.SampledValue | src/main.rs:56-64 | one variable: a type string other than `"int"` or `"float"` is `UnknownVariableType`; otherwise a draw that panics is `SamplingFailed`, and a draw that succeeds gives its value, passed through `roundTo` exactly when `round` is set (`Model.Rounded`), with the generator state after the draw |
| Sampling.SampleVariables | src/main.rs:54-66 | the loop returns what `SampledVariables` specifies: one draw per variable in iteration order, rounded when asked, inserted into `vars`, stopping at the first panic |
| Sampling.UnknownTypeFails | src/main.rs:56-59 | a variable whose type is neither `"int"` nor `"float"` makes sampling fail, whatever is drawn before it |
| Sampling.SampledVariablesAccepted | src/main.rs:56-59 | when sampling succeeds, every variable's type was accepted |
| Sampling.SampledVariablesShape | src/main.rs:54-66 | when sampling succeeds, `vars` holds exactly the variables' names, each once |
| Intermediates.SubstituteDependencies | src/main.rs:70-74 | the loop returns what `SubstitutedFormula` specifies: each dependency in list order looked up in `vars` and replaced everywhere in the formula, or the first missing one reported |
| Intermediates.EvaluateIntermediates | src/main.rs:68-81 | the loop returns what `EvaluatedIntermediates` specifies: each intermediate substituted, evaluated, rounded when asked and inserted, stopping at the first panic |
| Intermediates.UnresolvedDependencyIff | src/main.rs:71-72 | substitution fails if and only if some dependency is not a sampled variable, and it then reports the first such dependency |
| Intermediates.DependencyOutsideVariablesFails | src/main.rs:72 | a dependency that is not a sampled variable, such as another intermediate, fails with `UnresolvedDependency` whatever the formula |
| Intermediates.FailingIntermediateFails | src/main.rs:69-81 | one failing intermediate makes the whole loop fail |
| Intermediates.EvaluatedIntermediatesAll | src/main.rs:69-81 | when the loop succeeds, every intermediate evaluated |
| Intermediates.EvaluatedIntermediatesShape | src/main.rs:68-81 | when the loop succeeds, `intermediates` holds exactly the intermediates' names, each once |
| Intermediates.EvaluatedIntermediatesKeep | src/main.rs:80 | the loop leaves alone every name it is not given |
| Intermediates.EvaluatedIntermediatesValues | src/main.rs:69-81 | with distinct keys, each intermediate's value is its own evaluation over `vars`, whatever the other intermediates evaluate to |
| Intermediates.FormulaFreeOfDependencies | src/main.rs:71-74 | when no value string can recreate a dependency name, the formula handed to the evaluator contains none of the dependency names |
| Strings.ReplaceAllLeftmost | src/main.rs:85 | `str::replace` takes the leftmost occurrence of a non-empty pattern first: the text before it is kept, the occurrence becomes the replacement, and the search resumes after it, so matches never overlap |
| Strings.ReplaceAllRemoves | src/main.rs:73 | replacing a non-empty pattern by a string that cannot recreate it leaves no occurrence of the pattern |
| Strings.ReplaceAllKeepsAbsent | src/main.rs:73 | a string that was absent stays absent when the replacement cannot recreate it |
| Strings.ReplaceAllKeepsOccurrence | src/main.rs:85 | an occurrence that no occurrence of the pattern overlaps, matched or not, survives the replacement |
| Strings.ReplaceAllInserts | src/main.rs:85 | when the pattern occurs, the replacement appears in the result |
| Strings.ReplaceAllKeepsValue | src/main.rs:85 | a bracket-free string that lies inside no name survives the replacement of that name's placeholder |
| Strings.ReplaceAllKeepsPlaceholder | src/main.rs:85 | a placeholder survives the replacement of the placeholder of another name, both names bracket-free |
| Strings.ReplaceAllWithoutMatch | src/main.rs:85 | a string without the pattern comes back unchanged |
| Strings.ReplaceAllIdentity | src/main.rs:85 | replacing a pattern by itself changes nothing |
| Strings.EmptyPatternLength | src/main.rs:73 | an empty pattern, such as an empty dependency name, matches at every one of the text's character boundaries: the result has the text's length plus one replacement per boundary |
| Strings.EmptyPatternSlots | src/main.rs:73 | with an empty pattern the replacement sits at every boundary `i`, at position `i` times one more than its length |
| Strings.EmptyPatternKeeps | src/main.rs:73 | with an empty pattern each character of the text sits right after the replacement that precedes it |
| Strings.DisjointCannotRecreate | src/main.rs:73 | a non-empty value string that shares no character with a name cannot recreate it |
| Strings.Placeholder | src/main.rs:85 | `[name]` is the name between one opening and one closing bracket |
| Strings.BracketFreeCannotRecreate | src/main.rs:85 | a bracket-free value string that does not occur inside a name cannot recreate `[name]` |
| Strings.PlaceholdersDoNotOverlap | src/main.rs:84-89 | placeholders of two different bracket-free names never overlap in a text |
| Strings.ValueInsideNameRecreatesPlaceholder | src/main.rs:85 | the counterexample: a bracket-free value can still leave `[name]` behind, since replacing `[1]` by `1` turns `[[1]]` into `[1]` |
| Strings.BracketedKeyDestroysUnknown | src/main.rs:85 | the counterexample: a key holding a bracket can consume another placeholder, since replacing `[x]]` by `1` turns `[x]]` into `1` and removes `[x]` |
| Strings.ValueInsideNameRecreatesDependency | src/main.rs:73 | the counterexample: a value that does not contain the name can still leave it, since replacing `x1` by `1` turns `xx1` into `x1` |
| Placeholders.SubstitutePlaceholders | src/main.rs:83-89 | the two loops return what `Substituted` specifies: the text rebound once per variable and then once per intermediate, in iteration order |
| Placeholders.FillRemoves | src/main.rs:84-86 | after a loop, no placeholder of its names is left when no value string can recreate one, and placeholders already gone stay gone |
| Placeholders.FillKeepsUnknown | src/main.rs:84-86 | when every key the loop visits is bracket-free, a placeholder of a bracket-free name the loop does not visit survives it |
| Placeholders.FillKeepsValue | src/main.rs:84-86 | a bracket-free string, such as a value already put in, that lies inside no key the loop visits is still there after the loop |
| Placeholders.FillShowsValue | src/main.rs:84-86 | a text holding `[x]` holds the printed value of `x` after the loop, when the keys are bracket-free and the value is non-empty, bracket-free and inside no key |
| Placeholders.FillUntouched | src/main.rs:84-86 | a text with none of the loop's placeholders comes out unchanged |
| Placeholders.SubstitutedRemovesKnown | src/main.rs:83-89 | with bracket-free value strings that lie inside no name, no placeholder of a variable or an intermediate is left |
| Placeholders.SubstitutedKeepsUnknown | src/main.rs:83-89 | when every variable and intermediate name is bracket-free, a placeholder whose bracket-free name is neither is left in the text |
| Placeholders.SubstitutedShowsVariable | src/main.rs:83-89 | a text holding `[x]` for a variable `x` holds its printed value after both loops, under the conditions of `FillShowsValue` |
| Placeholders.SubstitutedShowsIntermediate | src/main.rs:83-89 | a text holding `[x]` for an intermediate `x` that is not also a variable holds its printed value after both loops, under the same conditions |
| Placeholders.IntermediateShadowedByVariable | src/main.rs:83-89 | the counterexample: when a variable and an intermediate share the name `x`, the variable's value takes `[x]` and the intermediate's value never appears |
| Placeholders.SubstitutedWithoutBrackets | src/main.rs:83-89 | a text without `[` is copied through unchanged |
| Tex.Decimal | src/main.rs:50 | the seed is written as a canonical decimal numeral, with no leading zero except for 0 itself |
| Tex.DecimalValueOf | src/main.rs:50 | the numeral written for the seed denotes the seed |
| Tex.ValueOfDecimal | src/main.rs:50 | every canonical numeral is the one written for the number it denotes |
| Tex.BlocksPush | src/main.rs:107-109 | pushing a rendered question appends its Question, Answer and Solution sections |
| Tex.BlocksAppend | src/main.rs:107-109 | the sections of two runs of questions are the two runs' sections, one after the other |
| Tex.BlocksInOrder | src/main.rs:107-109 | each question's three sections sit after those of every earlier question and before those of every later one |
| Tex.SeedLineForm | src/main.rs:50 | the seed line is `Seed value: `, the seed as a canonical numeral denoting it, and a newline |
| Tex.SectionForm | src/main.rs:107-109 | a section is its heading line `\section*{title}`, the body verbatim, and a newline (`Tex.Block`, by its definition, is the Question, Answer and Solution sections in that order) |
| Tex.DocumentFraming | src/main.rs:47-113 | the document starts with the preamble, then the seed line, and ends with `\end{document}` |
| Tex.SeedRecorded | src/main.rs:50 | the seed can be read back from the document |
| Driver.ProcessQuestion | src/main.rs:54-105 | one question returns what `RenderedQuestion` specifies: sampling, then the intermediates, then the same substitution on the three texts, with the generator state after its draws |
| Driver.RenderRound | src/main.rs:53-110 | the loop returns what `Round` specifies: each question of the pass rendered in order from the threaded generator state and its three sections pushed, giving the text and state after the pass, or the first panic |
| Driver.RoundThenRest | src/main.rs:52-113 | a pass is the first part of the run: its panic is the run's panic, and otherwise the run continues from the text and generator state the pass ends with |
| Driver.Generate | src/main.rs:47-113 | the document is exactly `Worksheet`: preamble, seed line, the sections of every rendering in order, end marker, or the first panic |
| Driver.Run | src/main.rs:37-113 | the program as written, seed 42 and one repetition, produces `Worksheet` for those constants |
| Driver.RunRecordsSeed | src/main.rs:37-50 | the program as written records seed 42 after the preamble |
| Driver.RepeatLength | src/main.rs:52-53 | the nested loops visit `num_problems` times the number of questions |
| Driver.RepeatIndex | src/main.rs:52-53 | visit `i` is of question `i` modulo the number of questions |
| Driver.RenderedLayout | src/main.rs:53-110 | a successful run renders every visited question once, in order |
| Driver.WorksheetLayout | src/main.rs:47-113 | the document holds `num_problems` times as many renderings as there are questions, between its opening and its end marker, and rendering `i` is of question `i` modulo the number of questions |
| Driver.FailingQuestionFails | src/main.rs:52-110 | a question that always fails makes the run fail |
| Driver.UnknownTypeAlwaysFails | src/main.rs:59 | a variable of unknown type makes its question fail from every generator state |
| Driver.DependencyOutsideVariablesAlwaysFails | src/main.rs:72 | an intermediate depending on a name that is not a variable makes its question fail from every generator state |
| Driver.FailingQuestionAbortsWorksheet | src/main.rs:52-117 | with at least one repetition, such a question stops `main` before anything is written |
| Driver.RenderedTables | src/main.rs:83-105 | the question, answer and solution all go through one and the same substitution: the sampled variables, then the intermediates |
| Driver.RenderedQuestionRemovesKnown | src/main.rs:83-105 | when the values printed for this rendering are bracket-free and lie inside no key, none of the three texts keeps a placeholder of a variable or an intermediate |
| Driver.RenderedQuestionShowsValues | src/main.rs:83-105 | each text of the question that holds `[x]` for a key `x` holds, once rendered, the printed value of `x`: the variable's when `x` is a variable, the intermediate's otherwise |
| Driver.RenderedQuestionKeepsUnknown | src/main.rs:83-105 | when the question's keys are bracket-free, a placeholder whose bracket-free name is not a key survives in each text it occurs in |

## Left out

- Random sampling (src/main.rs:41, 57-58): `StdRng` and `gen_range` are the parameters `seedRng` and `draw`. The `as i64` truncation of an integer range and the cast back to `f64` happen inside `draw`. A range `gen_range` rejects is `draw` returning `None`.
- Rounding (src/main.rs:62, 77): floating-point arithmetic is the parameter `roundTo`.
- Number formatting: `f64::to_string` is the parameter `show`. What a property needs of it, for example no brackets, is a precondition of that property.
- Formula evaluation (src/main.rs:75): `meval::eval_str` is the parameter `eval`. It returns `None` where `unwrap` panics.
- Hash-map iteration order of a question's `variables` and `intermediates` (src/main.rs:55, 69): each is given as its entries in the order the loop iterates it, so whatever order serde's `HashMap` yields is part of the input.
- Hash-map iteration order of `vars` and `intermediates` (src/main.rs:84, 87): it is the parameter `order`, a function of a table's entries, used only by the substitution of lines 83-105. The lemmas assume only that iteration is a permutation of the entries (`IteratesEntries`), and no property claims independence from the order. Because `order` depends on the entries alone, two equal tables iterate alike in the model, whereas each `HashMap::new()` in the program gets its own random hasher; no lemma relies on that.
- Template loading (src/main.rs:7-34, 43-45): serde and the file open are left out. The questions are a parameter.
- Writing `output.tex` (src/main.rs:115-117): `Generate` returns the text. The `expect` failures of file I/O are left out.
- The `columns` constant (src/main.rs:38) is never read, so it is not modelled.
- Dependency lookup: dependencies are looked up in `vars` only (src/main.rs:72), so a dependency naming an intermediate is an `UnresolvedDependency` (`Intermediates.DependencyOutsideVariablesFails`).
- Placeholders.SubstitutedRemovesKnown: besides bracket-free value strings, it requires that no value string occurs inside a name. A bracket-free value alone is not enough, as `Strings.ValueInsideNameRecreatesPlaceholder` shows.
- Driver.RenderedQuestionRemovesKnown: it has the same extra requirement as `Placeholders.SubstitutedRemovesKnown`, for the same reason, stated over the values printed for this rendering (`Driver.Printed`).
- Placeholders.FillKeepsUnknown: it requires every key the loop visits to be bracket-free. A key holding a bracket can consume an unknown placeholder, as `Strings.BracketedKeyDestroysUnknown` shows.
- Placeholders.SubstitutedKeepsUnknown: it requires every variable and intermediate name to be bracket-free, for the reason given for `Placeholders.FillKeepsUnknown`.
- Driver.RenderedQuestionKeepsUnknown: it requires the question's keys to be bracket-free, for the reason given for `Placeholders.FillKeepsUnknown`.
- Placeholders.FillShowsValue: it requires bracket-free keys and a non-empty, bracket-free value inside no key. A key holding a bracket can swallow `[x]` (`Strings.BracketedKeyDestroysUnknown`), and a value inside a key can be consumed by a later replacement.
- Placeholders.SubstitutedShowsVariable: it has the requirements of `Placeholders.FillShowsValue`, over both tables.
- Placeholders.SubstitutedShowsIntermediate: besides those requirements, the intermediate's name must not be a variable's, as `Placeholders.IntermediateShadowedByVariable` shows.
- Driver.RenderedQuestionShowsValues: it has the requirements of `Placeholders.FillShowsValue`: bracket-free keys, and the value shown for `x` non-empty, bracket-free and inside no key.
- Intermediates.FormulaFreeOfDependencies: it requires that no value string can recreate a name (`CannotRecreate`, implied for example by sharing no character with it: `Strings.DisjointCannotRecreate`). A value that merely does not contain the name is not enough, as `Strings.ValueInsideNameRecreatesDependency` shows.
- Sampling.SampledVariablesShape: it states the names in `vars`, not each variable's value. The values are whatever `draw` and `roundTo` return, as `SampledVariables` defines them.
- Driver.RenderedLayout: it states that each rendering comes from its question under some generator state, not which state. The state threaded from one draw to the next is fixed by `Rendered` and `Generate`.
- Driver.WorksheetLayout: it is stated in the same terms as `Driver.RenderedLayout`.
