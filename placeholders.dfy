/** Placeholder substitution in one text (src/main.rs, lines 83-89, repeated
    for the answer and the solution at lines 91-105): every `[name]` is
    replaced by the printed value of `name`, first for the sampled variables,
    then for the intermediates, each table in its iteration order. */
module Placeholders {
  import opened Model
  import opened Strings

  /** One of the two `for` loops: `text` rebound once per entry, in the order given. */
  function Fill(text: string, entries: Env, show: Value -> string): string
    decreases |entries|
  {
    if entries == [] then text
    else Fill(ReplaceAll(text, Placeholder(entries[0].0), show(entries[0].1)), entries[1..], show)
  }

  /** The text after both loops: variables first, then intermediates. */
  function Substituted(text: string, vars: Env, intermediates: Env, ext: Externals): string {
    Fill(Fill(text, ext.order(vars), ext.show), ext.order(intermediates), ext.show)
  }

  /** Lines 83-89 for one text. */
  method SubstitutePlaceholders(text0: string, vars: Env, intermediates: Env, ext: Externals) returns (text: string)
    ensures text == Substituted(text0, vars, intermediates, ext)
  {
    text := text0;
    var entries := ext.order(vars);
    for i := 0 to |entries|
      invariant Fill(text0, entries, ext.show) == Fill(text, entries[i..], ext.show)
    {
      assert entries[i..][1..] == entries[i + 1..];
      var (name, value) := entries[i];
      text := ReplaceAll(text, Placeholder(name), ext.show(value));
    }
    entries := ext.order(intermediates);
    for i := 0 to |entries|
      invariant Substituted(text0, vars, intermediates, ext) == Fill(text, entries[i..], ext.show)
    {
      assert entries[i..][1..] == entries[i + 1..];
      var (name, value) := entries[i];
      text := ReplaceAll(text, Placeholder(name), ext.show(value));
    }
  }

  /** Once a loop has replaced `[name]`, and no value string it puts in later
      can recreate it, the placeholder stays gone. */
  lemma {:induction false} FillRemoves(text: string, entries: Env, gone: set<string>, show: Value -> string)
    requires forall n, e :: (n in Names(entries) || n in gone) && e in entries ==> CannotRecreate(Placeholder(n), show(e.1))
    requires forall g :: g in gone ==> !Contains(text, Placeholder(g))
    ensures forall n :: n in Names(entries) || n in gone ==> !Contains(Fill(text, entries, show), Placeholder(n))
    decreases |entries|
  {
    if entries != [] {
      var (k, v) := entries[0];
      var next := ReplaceAll(text, Placeholder(k), show(v));
      assert entries[0] in entries;
      ReplaceAllRemoves(text, Placeholder(k), show(v));
      forall g | g in gone ensures !Contains(next, Placeholder(g)) {
        ReplaceAllKeepsAbsent(text, Placeholder(k), show(v), Placeholder(g));
      }
      assert forall e :: e in entries[1..] ==> e in entries;
      FillRemoves(next, entries[1..], gone + {k}, show);
    }
  }

  /** A placeholder for a bracket-free name that no entry has survives the loop,
      whatever the values: the placeholders being replaced cannot overlap it. */
  lemma {:induction false} FillKeepsUnknown(text: string, entries: Env, show: Value -> string, u: string)
    requires NoBrackets(u) && u !in Names(entries)
    requires forall e :: e in entries ==> NoBrackets(e.0)
    requires Contains(text, Placeholder(u))
    ensures Contains(Fill(text, entries, show), Placeholder(u))
    decreases |entries|
  {
    if entries != [] {
      var (k, v) := entries[0];
      assert entries[0] in entries;
      ReplaceAllKeepsPlaceholder(text, k, show(v), u);
      assert forall e :: e in entries[1..] ==> e in entries;
      FillKeepsUnknown(ReplaceAll(text, Placeholder(k), show(v)), entries[1..], show, u);
    }
  }

  /** A bracket-free string, such as a value already put in, that lies inside
      no key the loop visits is still in the text after the loop. */
  lemma {:induction false} FillKeepsValue(text: string, entries: Env, show: Value -> string, w: string)
    requires w != [] && NoBrackets(w) && Contains(text, w)
    requires forall e :: e in entries ==> !Contains(e.0, w)
    ensures Contains(Fill(text, entries, show), w)
    decreases |entries|
  {
    if entries != [] {
      var (k, v) := entries[0];
      assert entries[0] in entries;
      ReplaceAllKeepsValue(text, k, show(v), w);
      assert forall e :: e in entries[1..] ==> e in entries;
      FillKeepsValue(ReplaceAll(text, Placeholder(k), show(v)), entries[1..], show, w);
    }
  }

  /** The loop puts the printed value of `x` into a text holding `[x]`: the
      placeholder survives the entries before `x`'s, is replaced by the value,
      and the value survives the entries after it. */
  lemma {:induction false} FillShowsValue(text: string, entries: Env, show: Value -> string, x: string, v: Value)
    requires (x, v) in entries && forall e :: e in entries && e.0 == x ==> e.1 == v
    requires forall e :: e in entries ==> NoBrackets(e.0) && !Contains(e.0, show(v))
    requires show(v) != [] && NoBrackets(show(v))
    requires Contains(text, Placeholder(x))
    ensures Contains(Fill(text, entries, show), show(v))
    decreases |entries|
  {
    var (k, v0) := entries[0];
    assert entries[0] in entries;
    var next := ReplaceAll(text, Placeholder(k), show(v0));
    assert forall e :: e in entries[1..] ==> e in entries;
    if k == x {
      ReplaceAllInserts(text, Placeholder(x), show(v));
      FillKeepsValue(next, entries[1..], show, show(v));
    } else {
      assert (x, v) in entries[1..] by {
        assert entries == [entries[0]] + entries[1..];
      }
      ReplaceAllKeepsPlaceholder(text, k, show(v0), x);
      FillShowsValue(next, entries[1..], show, x, v);
    }
  }

  /** A text in which no placeholder occurs comes out of the loop unchanged. */
  lemma {:induction false} FillUntouched(text: string, entries: Env, show: Value -> string)
    requires forall e :: e in entries ==> !Contains(text, Placeholder(e.0))
    ensures Fill(text, entries, show) == text
    decreases |entries|
  {
    if entries != [] {
      assert entries[0] in entries;
      ReplaceAllWithoutMatch(text, Placeholder(entries[0].0), show(entries[0].1));
      assert forall e :: e in entries[1..] ==> e in entries;
      FillUntouched(text, entries[1..], show);
    }
  }

  /** When every value string is bracket-free and lies inside no key, no
      placeholder of a variable or an intermediate is left in the text. */
  lemma SubstitutedRemovesKnown(text: string, vars: Env, intermediates: Env, ext: Externals)
    requires IteratesEntries(ext)
    requires forall e :: e in vars || e in intermediates ==> NoBrackets(ext.show(e.1))
    requires forall n, e :: (n in Names(vars) || n in Names(intermediates)) && (e in vars || e in intermediates) ==>
      !Contains(n, ext.show(e.1))
    ensures forall n :: n in Names(vars) || n in Names(intermediates) ==>
      !Contains(Substituted(text, vars, intermediates, ext), Placeholder(n))
  {
    var ov, oi := ext.order(vars), ext.order(intermediates);
    OrderedEntries(ext, vars);
    OrderedEntries(ext, intermediates);
    SameEntriesSameNames(ov, vars);
    SameEntriesSameNames(oi, intermediates);
    KnownCannotRecreate(Names(vars) + Names(intermediates), vars + intermediates, ext.show);
    assert forall e :: e in vars + intermediates <==> e in vars || e in intermediates;
    FillRemoves(text, ov, {}, ext.show);
    FillRemoves(Fill(text, ov, ext.show), oi, Names(vars), ext.show);
  }

  lemma KnownCannotRecreate(names: set<string>, entries: Env, show: Value -> string)
    requires forall e :: e in entries ==> NoBrackets(show(e.1))
    requires forall n, e :: n in names && e in entries ==> !Contains(n, show(e.1))
    ensures forall n, e :: n in names && e in entries ==> CannotRecreate(Placeholder(n), show(e.1))
  {
    forall n, e | n in names && e in entries ensures CannotRecreate(Placeholder(n), show(e.1)) {
      BracketFreeCannotRecreate(n, show(e.1));
    }
  }

  /** A placeholder whose bracket-free name is neither a variable nor an
      intermediate is still in the text after substitution. */
  lemma SubstitutedKeepsUnknown(text: string, vars: Env, intermediates: Env, ext: Externals, u: string)
    requires IteratesEntries(ext)
    requires NoBrackets(u) && u !in Names(vars) && u !in Names(intermediates)
    requires forall e :: e in vars || e in intermediates ==> NoBrackets(e.0)
    requires Contains(text, Placeholder(u))
    ensures Contains(Substituted(text, vars, intermediates, ext), Placeholder(u))
  {
    var ov, oi := ext.order(vars), ext.order(intermediates);
    OrderedEntries(ext, vars);
    OrderedEntries(ext, intermediates);
    SameEntriesSameNames(ov, vars);
    SameEntriesSameNames(oi, intermediates);
    FillKeepsUnknown(text, ov, ext.show, u);
    FillKeepsUnknown(Fill(text, ov, ext.show), oi, ext.show, u);
  }

  /** A variable's placeholder becomes its printed value: when the value is
      bracket-free, non-empty and inside no key, it is in the substituted text. */
  lemma SubstitutedShowsVariable(text: string, vars: Env, intermediates: Env, ext: Externals, x: string, v: Value)
    requires IteratesEntries(ext)
    requires Distinct(vars) && (x, v) in vars
    requires forall e :: e in vars || e in intermediates ==> NoBrackets(e.0) && !Contains(e.0, ext.show(v))
    requires ext.show(v) != [] && NoBrackets(ext.show(v))
    requires Contains(text, Placeholder(x))
    ensures Contains(Substituted(text, vars, intermediates, ext), ext.show(v))
  {
    var ov, oi := ext.order(vars), ext.order(intermediates);
    OrderedEntries(ext, vars);
    OrderedEntries(ext, intermediates);
    assert Lookup(vars, x) == Some(v);
    FillShowsValue(text, ov, ext.show, x, v);
    FillKeepsValue(Fill(text, ov, ext.show), oi, ext.show, ext.show(v));
  }

  /** An intermediate's placeholder becomes its printed value, provided no
      variable has the same name: the variables are substituted first. */
  lemma SubstitutedShowsIntermediate(text: string, vars: Env, intermediates: Env, ext: Externals, x: string, v: Value)
    requires IteratesEntries(ext)
    requires Distinct(intermediates) && (x, v) in intermediates && x !in Names(vars)
    requires forall e :: e in vars || e in intermediates ==> NoBrackets(e.0) && !Contains(e.0, ext.show(v))
    requires ext.show(v) != [] && NoBrackets(ext.show(v))
    requires Contains(text, Placeholder(x))
    ensures Contains(Substituted(text, vars, intermediates, ext), ext.show(v))
  {
    var ov, oi := ext.order(vars), ext.order(intermediates);
    OrderedEntries(ext, vars);
    OrderedEntries(ext, intermediates);
    SameEntriesSameNames(ov, vars);
    assert Lookup(intermediates, x) == Some(v);
    FillKeepsUnknown(text, ov, ext.show, x);
    FillShowsValue(Fill(text, ov, ext.show), oi, ext.show, x, v);
  }

  /** A variable shadows an intermediate of the same name: `[x]` is taken by
      the variable's value, and the intermediate's value never appears. */
  lemma IntermediateShadowedByVariable(ext: Externals, a: Value, b: Value)
    requires IteratesEntries(ext) && ext.show(a) == "1" && ext.show(b) == "2"
    ensures Substituted("[x]", [("x", a)], [("x", b)], ext) == "1"
    ensures !Contains(Substituted("[x]", [("x", a)], [("x", b)], ext), ext.show(b))
  {
    var ov, oi := ext.order([("x", a)]), ext.order([("x", b)]);
    assert ov[0] in ov && oi[0] in oi;
    assert ov == [("x", a)] && oi == [("x", b)];
    assert OccursAt("[x]", Placeholder("x"), 0);
    assert "[x]"[3..] == [];
    assert ReplaceAll("[x]", Placeholder("x"), "1") == "1";
    assert Fill("[x]", ov, ext.show) == "1";
    assert !OccursAt("1", Placeholder("x"), 0);
    assert ReplaceAll("1", Placeholder("x"), "2") == "1";
    assert Fill("1", oi, ext.show) == "1";
    assert forall j :: !OccursAt("1", "2", j);
  }

  /** A text without `[` is copied through unchanged. */
  lemma SubstitutedWithoutBrackets(text: string, vars: Env, intermediates: Env, ext: Externals)
    requires '[' !in text
    ensures Substituted(text, vars, intermediates, ext) == text
  {
    assert forall n, j :: OccursAt(text, Placeholder(n), j) ==> text[j] in text;
    FillUntouched(text, ext.order(vars), ext.show);
    FillUntouched(text, ext.order(intermediates), ext.show);
  }
}
