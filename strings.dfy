/** Rust's `str::replace` on strings of characters, and what can be proved about
    the occurrences of a pattern before and after replacing it. */
module Strings {

  /** `pat` occurs in `s` starting at index `j`. */
  predicate OccursAt(s: string, pat: string, j: int) {
    0 <= j && j + |pat| <= |s| && s[j..j + |pat|] == pat
  }

  ghost predicate Contains(s: string, pat: string) {
    exists j :: OccursAt(s, pat, j)
  }

  predicate NoBrackets(s: string) {
    '[' !in s && ']' !in s
  }

  /** The last `m` characters of `x` are the first `m` characters of `y`. */
  predicate Overhang(x: string, y: string, m: int) {
    0 < m <= |x| && m <= |y| && x[|x| - m..] == y[..m]
  }

  lemma Associative(a: string, b: string, c: string)
    ensures (a + b) + c == a + (b + c)
  {
  }

  lemma HeadTail(s: string)
    requires s != []
    ensures s == [s[0]] + s[1..]
  {
  }

  /** `s.replace(pat, rep)`: every leftmost, non-overlapping occurrence of `pat`
      is replaced by `rep`. An empty pattern matches at every position, so `rep`
      is put before every character and once more at the end. */
  function ReplaceAll(s: string, pat: string, rep: string): string
    decreases |s|
  {
    if pat == [] then
      if s == [] then rep else rep + [s[0]] + ReplaceAll(s[1..], pat, rep)
    else if OccursAt(s, pat, 0) then rep + ReplaceAll(s[|pat|..], pat, rep)
    else if s == [] then []
    else [s[0]] + ReplaceAll(s[1..], pat, rep)
  }

  /** The two ways `ReplaceAll` consumes a non-empty string. */
  lemma ReplaceAllStep(s: string, pat: string, rep: string)
    requires pat != [] && s != []
    ensures OccursAt(s, pat, 0) ==> s == pat + s[|pat|..] && ReplaceAll(s, pat, rep) == rep + ReplaceAll(s[|pat|..], pat, rep)
    ensures !OccursAt(s, pat, 0) ==> ReplaceAll(s, pat, rep) == [s[0]] + ReplaceAll(s[1..], pat, rep)
  {
    if OccursAt(s, pat, 0) {
      assert s == s[..|pat|] + s[|pat|..];
    }
  }

  /** Inserting `rep` between two strings can never produce an occurrence of
      `pat` that touches `rep`: `rep` holds no `pat`, no tail of `rep` starts
      `pat`, no head of `rep` ends `pat`, and `rep` does not sit strictly
      inside `pat`. */
  ghost predicate CannotRecreate(pat: string, rep: string) {
    && (forall j :: !OccursAt(rep, pat, j))
    && (forall m :: m < |pat| ==> !Overhang(rep, pat, m))
    && (forall m :: m < |pat| ==> !Overhang(pat, rep, m))
    && (forall o :: 0 < o && o + |rep| < |pat| ==> !OccursAt(pat, rep, o))
  }

  /** An occurrence of `q` that starts in `a` and ends in `rep` overhangs `rep`. */
  lemma SpliceLeft(a: string, rep: string, t: string, q: string, j: int)
    requires OccursAt(a + rep + t, q, j) && j < |a| < j + |q| <= |a| + |rep|
    ensures Overhang(q, rep, j + |q| - |a|)
  {
    var w, m := a + rep + t, j + |q| - |a|;
    forall x | 0 <= x < m ensures q[|q| - m..][x] == rep[..m][x] {
      assert q[|q| - m + x] == w[j..j + |q|][|q| - m + x] == w[|a| + x];
    }
    assert q[|q| - m..] == rep[..m];
  }

  /** An occurrence of `q` that starts in `a` and ends in `t` holds `rep`. */
  lemma SpliceAcross(a: string, rep: string, t: string, q: string, j: int)
    requires OccursAt(a + rep + t, q, j) && j < |a| && |a| + |rep| < j + |q|
    ensures OccursAt(q, rep, |a| - j)
  {
    var w, o := a + rep + t, |a| - j;
    forall x | 0 <= x < |rep| ensures q[o..o + |rep|][x] == rep[x] {
      assert q[o + x] == w[j..j + |q|][o + x] == w[|a| + x];
    }
    assert q[o..o + |rep|] == rep;
  }

  /** An occurrence of `q` inside `rep`. */
  lemma SpliceInside(a: string, rep: string, t: string, q: string, j: int)
    requires OccursAt(a + rep + t, q, j) && |a| <= j && j + |q| <= |a| + |rep|
    ensures OccursAt(rep, q, j - |a|)
  {
    var w, i := a + rep + t, j - |a|;
    forall x | 0 <= x < |q| ensures rep[i..i + |q|][x] == q[x] {
      assert q[x] == w[j..j + |q|][x] == w[j + x] == rep[i + x];
    }
    assert rep[i..i + |q|] == q;
  }

  /** An occurrence of `q` that starts in `rep` and ends in `t` is overhung by `rep`. */
  lemma SpliceRight(a: string, rep: string, t: string, q: string, j: int)
    requires OccursAt(a + rep + t, q, j) && |a| <= j < |a| + |rep| < j + |q|
    ensures Overhang(rep, q, |a| + |rep| - j)
  {
    var w, m := a + rep + t, |a| + |rep| - j;
    forall x | 0 <= x < m ensures rep[|rep| - m..][x] == q[..m][x] {
      assert q[x] == w[j..j + |q|][x] == w[j + x] == rep[|rep| - m + x];
    }
    assert rep[|rep| - m..] == q[..m];
  }

  /** Where an occurrence of `q` in `a + rep + t` can lie: inside `a`, inside
      `t`, inside `rep`, or across one or both ends of `rep`. */
  lemma SpliceCases(a: string, rep: string, t: string, q: string, j: int)
    ensures OccursAt(a + rep + t, q, j) ==>
      || j + |q| <= |a|
      || |a| + |rep| <= j
      || OccursAt(rep, q, j - |a|)
      || Overhang(q, rep, j + |q| - |a|)
      || Overhang(rep, q, |a| + |rep| - j)
      || (0 < |a| - j && |a| - j + |rep| < |q| && OccursAt(q, rep, |a| - j))
  {
    if OccursAt(a + rep + t, q, j) && j + |q| > |a| && |a| + |rep| > j {
      if j < |a| {
        if j + |q| <= |a| + |rep| {
          SpliceLeft(a, rep, t, q, j);
        } else {
          SpliceAcross(a, rep, t, q, j);
        }
      } else if j + |q| <= |a| + |rep| {
        SpliceInside(a, rep, t, q, j);
      } else {
        SpliceRight(a, rep, t, q, j);
      }
    }
  }

  /** Every occurrence of `q` in `a + rep + t` lies inside `a` or inside `t`. */
  lemma SpliceStep(a: string, rep: string, t: string, q: string, j: int)
    requires CannotRecreate(q, rep)
    ensures OccursAt(a + rep + t, q, j) ==> j + |q| <= |a| || |a| + |rep| <= j
  {
    SpliceCases(a, rep, t, q, j);
  }

  /** An occurrence that lies inside the prefix `a` of `a + x` lies inside `a + y` too. */
  lemma OccursInPrefix(a: string, x: string, y: string, q: string, j: int)
    ensures OccursAt(a + x, q, j) && j + |q| <= |a| ==> OccursAt(a + y, q, j)
  {
    if OccursAt(a + x, q, j) && j + |q| <= |a| {
      assert (a + x)[j..j + |q|] == a[j..j + |q|] == (a + y)[j..j + |q|];
    }
  }

  /** An occurrence that lies inside the suffix `t` of `x + t` lies inside `y + t`, shifted. */
  lemma OccursInSuffix(x: string, y: string, t: string, q: string, j: int)
    ensures OccursAt(x + t, q, j) && |x| <= j ==> OccursAt(y + t, q, j - |x| + |y|)
  {
    if OccursAt(x + t, q, j) && |x| <= j {
      assert (x + t)[j..j + |q|] == t[j - |x|..j - |x| + |q|] == (y + t)[j - |x| + |y|..j - |x| + |y| + |q|];
    }
  }

  /** An occurrence in the tail of `s` is an occurrence in `s`, one further on. */
  lemma OccursInTail(s: string, q: string, j: int)
    requires s != []
    ensures OccursAt(s[1..], q, j) ==> OccursAt(s, q, j + 1)
  {
    if OccursAt(s[1..], q, j) {
      assert s[j + 1..j + 1 + |q|] == s[1..][j..j + |q|];
    }
  }

  /** A string in which a non-empty pattern does not start before the end holds
      no occurrence of it. */
  lemma RemovesDone(a: string, pat: string)
    requires pat != []
    requires forall j :: 0 <= j < |a| ==> !OccursAt(a, pat, j)
    ensures forall j :: !OccursAt(a, pat, j)
  {
  }

  /** Replacing an occurrence at the front of `s` by `rep` creates no occurrence
      in front of what is left of `s`. */
  lemma RemovesMatch(a: string, s: string, pat: string, rep: string)
    requires pat != [] && CannotRecreate(pat, rep) && OccursAt(s, pat, 0)
    requires forall j :: 0 <= j < |a| ==> !OccursAt(a + s, pat, j)
    ensures forall j :: 0 <= j < |a + rep| ==> !OccursAt((a + rep) + s[|pat|..], pat, j)
  {
    var t := s[|pat|..];
    Associative(a, rep, t);
    forall j | 0 <= j < |a + rep| ensures !OccursAt(a + rep + t, pat, j) {
      SpliceStep(a, rep, t, pat, j);
      OccursInPrefix(a, rep + t, s, pat, j);
    }
  }

  /** A pattern that does not start `s` does not start at the seam of `a + s`. */
  lemma NotAtSeam(a: string, s: string, pat: string)
    requires !OccursAt(s, pat, 0)
    ensures !OccursAt(a + s, pat, |a|)
  {
  }

  /** Stepping over a first character of `s` at which `pat` does not start. */
  lemma RemovesSkip(a: string, s: string, pat: string)
    requires !OccursAt(s, pat, 0)
    requires forall j :: 0 <= j < |a| ==> !OccursAt(a + s, pat, j)
    ensures forall j :: 0 <= j <= |a| ==> !OccursAt(a + s, pat, j)
  {
    NotAtSeam(a, s, pat);
  }

  lemma SkipEquations(a: string, s: string, pat: string, rep: string)
    requires pat != [] && s != [] && !OccursAt(s, pat, 0)
    ensures a + s == (a + [s[0]]) + s[1..]
    ensures a + ReplaceAll(s, pat, rep) == (a + [s[0]]) + ReplaceAll(s[1..], pat, rep)
  {
    ReplaceAllStep(s, pat, rep);
    HeadTail(s);
    Associative(a, [s[0]], s[1..]);
    Associative(a, [s[0]], ReplaceAll(s[1..], pat, rep));
  }

  lemma {:induction false} RemovesAux(a: string, s: string, pat: string, rep: string)
    requires pat != [] && CannotRecreate(pat, rep)
    requires forall j :: 0 <= j < |a| ==> !OccursAt(a + s, pat, j)
    ensures forall j :: !OccursAt(a + ReplaceAll(s, pat, rep), pat, j)
    decreases |s|
  {
    if s == [] {
      assert a + ReplaceAll(s, pat, rep) == a + s == a;
      RemovesDone(a, pat);
    } else if OccursAt(s, pat, 0) {
      var t := s[|pat|..];
      RemovesMatch(a, s, pat, rep);
      RemovesAux(a + rep, t, pat, rep);
      ReplaceAllStep(s, pat, rep);
      Associative(a, rep, ReplaceAll(t, pat, rep));
    } else {
      RemovesSkip(a, s, pat);
      SkipEquations(a, s, pat, rep);
      RemovesAux(a + [s[0]], s[1..], pat, rep);
    }
  }

  /** Replacing a non-empty pattern by a string that cannot recreate it leaves no
      occurrence of the pattern behind. */
  lemma ReplaceAllRemoves(s: string, pat: string, rep: string)
    requires pat != [] && CannotRecreate(pat, rep)
    ensures !Contains(ReplaceAll(s, pat, rep), pat)
  {
    RemovesAux([], s, pat, rep);
    assert [] + s == s;
    assert [] + ReplaceAll(s, pat, rep) == ReplaceAll(s, pat, rep);
  }

  lemma MatchText(a: string, s: string, pat: string)
    requires OccursAt(s, pat, 0)
    ensures a + s == (a + pat) + s[|pat|..]
  {
    assert s == s[..|pat|] + s[|pat|..];
    Associative(a, pat, s[|pat|..]);
  }

  lemma MatchEquations(a: string, s: string, pat: string, rep: string)
    requires pat != [] && OccursAt(s, pat, 0)
    ensures a + s == (a + pat) + s[|pat|..]
    ensures a + ReplaceAll(s, pat, rep) == (a + rep) + ReplaceAll(s[|pat|..], pat, rep)
  {
    ReplaceAllStep(s, pat, rep);
    Associative(a, pat, s[|pat|..]);
    Associative(a, rep, ReplaceAll(s[|pat|..], pat, rep));
  }

  /** Replacing an occurrence of `pat` at the front of `s` creates no `q`. */
  lemma KeepsAbsentMatch(a: string, s: string, pat: string, rep: string, q: string)
    requires pat != [] && CannotRecreate(q, rep) && OccursAt(s, pat, 0)
    requires forall j :: !OccursAt(a + s, q, j)
    ensures forall j :: !OccursAt((a + rep) + s[|pat|..], q, j)
  {
    var t := s[|pat|..];
    MatchEquations(a, s, pat, rep);
    Associative(a, rep, t);
    forall j ensures !OccursAt(a + rep + t, q, j) {
      SpliceStep(a, rep, t, q, j);
      OccursInPrefix(a, rep + t, s, q, j);
      OccursInSuffix(a + rep, a + pat, t, q, j);
    }
  }

  lemma {:induction false} KeepsAbsentAux(a: string, s: string, pat: string, rep: string, q: string)
    requires pat != [] && CannotRecreate(q, rep)
    requires forall j :: !OccursAt(a + s, q, j)
    ensures forall j :: !OccursAt(a + ReplaceAll(s, pat, rep), q, j)
    decreases |s|
  {
    if s == [] {
      assert ReplaceAll(s, pat, rep) == s;
    } else if OccursAt(s, pat, 0) {
      KeepsAbsentMatch(a, s, pat, rep, q);
      KeepsAbsentAux(a + rep, s[|pat|..], pat, rep, q);
      MatchEquations(a, s, pat, rep);
    } else {
      SkipEquations(a, s, pat, rep);
      KeepsAbsentAux(a + [s[0]], s[1..], pat, rep, q);
    }
  }

  /** A string `q` that is absent stays absent when the replacement cannot recreate it. */
  lemma ReplaceAllKeepsAbsent(s: string, pat: string, rep: string, q: string)
    requires pat != [] && CannotRecreate(q, rep)
    requires !Contains(s, q)
    ensures !Contains(ReplaceAll(s, pat, rep), q)
  {
    assert [] + s == s;
    KeepsAbsentAux([], s, pat, rep, q);
    assert [] + ReplaceAll(s, pat, rep) == ReplaceAll(s, pat, rep);
  }

  /** An occurrence in `t` is an occurrence in `x + t`, `|x|` further on. */
  lemma OccursAfter(x: string, t: string, q: string, j: int)
    ensures OccursAt(t, q, j) ==> OccursAt(x + t, q, j + |x|)
  {
    if OccursAt(t, q, j) {
      assert (x + t)[j + |x|..j + |x| + |q|] == t[j..j + |q|];
    }
  }

  /** After an occurrence of `pat` at the front of `s`, the occurrence of `q`
      sits in what is left of `s`, shifted by the replacement. */
  lemma KeepsOccurrenceMatch(a: string, s: string, pat: string, rep: string, q: string, i: int)
    requires pat != [] && OccursAt(s, pat, 0) && |a| + |pat| <= i
    requires OccursAt(a + s, q, i)
    ensures OccursAt((a + rep) + s[|pat|..], q, i - |pat| + |rep|)
  {
    MatchText(a, s, pat);
    OccursInSuffix(a + pat, a + rep, s[|pat|..], q, i);
  }

  /** ... and the occurrences of `pat` in what is left still avoid it. */
  lemma KeepsOccurrenceAvoids(a: string, s: string, pat: string, rep: string, q: string, i: int)
    requires pat != [] && OccursAt(s, pat, 0)
    requires forall j :: OccursAt(s, pat, j) ==> j + |pat| <= i - |a| || i - |a| + |q| <= j
    ensures forall j :: OccursAt(s[|pat|..], pat, j) ==>
      j + |pat| <= i - |pat| + |rep| - |a + rep| || i - |pat| + |rep| - |a + rep| + |q| <= j
  {
    var t := s[|pat|..];
    ReplaceAllStep(s, pat, rep);
    forall j | OccursAt(t, pat, j) ensures j + |pat| <= i - |pat| + |rep| - |a + rep| || i - |pat| + |rep| - |a + rep| + |q| <= j {
      OccursAfter(pat, t, pat, j);
    }
  }

  lemma KeepsOccurrenceSkip(a: string, s: string, pat: string, q: string, i: int)
    requires pat != [] && s != []
    requires forall j :: OccursAt(s, pat, j) ==> j + |pat| <= i - |a| || i - |a| + |q| <= j
    ensures forall j :: OccursAt(s[1..], pat, j) ==> j + |pat| <= i - |a + [s[0]]| || i - |a + [s[0]]| + |q| <= j
  {
    forall j | OccursAt(s[1..], pat, j) ensures j + |pat| <= i - |a + [s[0]]| || i - |a + [s[0]]| + |q| <= j {
      OccursInTail(s, pat, j);
    }
  }

  lemma {:induction false} KeepsOccurrenceAux(a: string, s: string, pat: string, rep: string, q: string, i: int)
    requires pat != []
    requires OccursAt(a + s, q, i)
    requires forall j :: OccursAt(s, pat, j) ==> j + |pat| <= i - |a| || i - |a| + |q| <= j
    ensures Contains(a + ReplaceAll(s, pat, rep), q)
    decreases |s|
  {
    if i + |q| <= |a| {
      OccursInPrefix(a, s, ReplaceAll(s, pat, rep), q, i);
    } else if OccursAt(s, pat, 0) {
      KeepsOccurrenceMatch(a, s, pat, rep, q, i);
      KeepsOccurrenceAvoids(a, s, pat, rep, q, i);
      KeepsOccurrenceAux(a + rep, s[|pat|..], pat, rep, q, i - |pat| + |rep|);
      MatchEquations(a, s, pat, rep);
    } else if s != [] {
      SkipEquations(a, s, pat, rep);
      KeepsOccurrenceSkip(a, s, pat, q, i);
      KeepsOccurrenceAux(a + [s[0]], s[1..], pat, rep, q, i);
    }
  }

  /** An occurrence of `q` that no occurrence of `pat` overlaps survives the
      replacement. (An occurrence of `pat` that is never matched, because it
      overlaps an earlier match, is also required to keep clear of `q`.) */
  lemma ReplaceAllKeepsOccurrence(s: string, pat: string, rep: string, q: string, i: int)
    requires pat != [] && OccursAt(s, q, i)
    requires forall j :: OccursAt(s, pat, j) ==> j + |pat| <= i || i + |q| <= j
    ensures Contains(ReplaceAll(s, pat, rep), q)
  {
    assert [] + s == s;
    KeepsOccurrenceAux([], s, pat, rep, q, i);
    assert [] + ReplaceAll(s, pat, rep) == ReplaceAll(s, pat, rep);
  }

  /** `pat` does not occur in `s` before index `k`, stated one position at a time. */
  predicate ClearBefore(s: string, pat: string, k: int)
    decreases |s|
  {
    k <= 0 || (!OccursAt(s, pat, 0) && (s == [] || ClearBefore(s[1..], pat, k - 1)))
  }

  lemma {:induction false} ClearBeforeMeans(s: string, pat: string, k: int)
    requires forall j :: 0 <= j < k ==> !OccursAt(s, pat, j)
    ensures ClearBefore(s, pat, k)
    decreases |s|
  {
    if k > 0 && s != [] {
      forall j | 0 <= j < k - 1 ensures !OccursAt(s[1..], pat, j) {
        OccursInTail(s, pat, j);
      }
      ClearBeforeMeans(s[1..], pat, k - 1);
    }
  }

  lemma TailSlices(s: string, pat: string, k: int)
    requires 0 < k && OccursAt(s, pat, k)
    ensures OccursAt(s[1..], pat, k - 1)
    ensures s[1..][k - 1 + |pat|..] == s[k + |pat|..]
  {
    assert s[1..][k - 1..k - 1 + |pat|] == s[k..k + |pat|];
  }

  /** One character before the first occurrence: it is copied and the search goes on in the tail. */
  lemma LeftmostStep(s: string, pat: string, rep: string, k: int, whole: string, tail: string, rest: string)
    requires 0 < k && OccursAt(s, pat, k)
    requires whole == [s[0]] + tail
    requires tail == s[1..][..k - 1] + rep + rest
    ensures whole == s[..k] + rep + rest
  {
    assert [s[0]] + s[1..][..k - 1] == s[..k];
  }

  lemma {:induction false} LeftmostAux(s: string, pat: string, rep: string, k: int)
    requires pat != [] && OccursAt(s, pat, k) && ClearBefore(s, pat, k)
    ensures ReplaceAll(s, pat, rep) == s[..k] + rep + ReplaceAll(s[k + |pat|..], pat, rep)
    decreases k
  {
    if k == 0 {
      ReplaceAllStep(s, pat, rep);
      assert s[..0] + rep == rep;
    } else {
      var u := s[1..];
      TailSlices(s, pat, k);
      LeftmostAux(u, pat, rep, k - 1);
      var rest := ReplaceAll(s[k + |pat|..], pat, rep);
      var tail := ReplaceAll(u, pat, rep);
      assert tail == u[..k - 1] + rep + rest;
      ReplaceAllStep(s, pat, rep);
      LeftmostStep(s, pat, rep, k, ReplaceAll(s, pat, rep), tail, rest);
    }
  }

  /** `str::replace` finds the leftmost occurrence first: when `pat` first
      occurs at `k`, everything before `k` is copied, that occurrence becomes
      `rep`, and the search resumes after it, so matches never overlap. */
  lemma ReplaceAllLeftmost(s: string, pat: string, rep: string, k: int)
    requires pat != [] && OccursAt(s, pat, k)
    requires forall j :: 0 <= j < k ==> !OccursAt(s, pat, j)
    ensures ReplaceAll(s, pat, rep) == s[..k] + rep + ReplaceAll(s[k + |pat|..], pat, rep)
  {
    ClearBeforeMeans(s, pat, k);
    LeftmostAux(s, pat, rep, k);
  }

  /** Every occurrence has a leftmost occurrence at or before it. */
  lemma FirstOccurrence(s: string, pat: string, i: int) returns (k: int)
    requires OccursAt(s, pat, i)
    ensures k <= i && OccursAt(s, pat, k)
    ensures forall j :: 0 <= j < k ==> !OccursAt(s, pat, j)
    decreases i
  {
    if j :| 0 <= j < i && OccursAt(s, pat, j) {
      k := FirstOccurrence(s, pat, j);
    } else {
      k := i;
    }
  }

  lemma OccursBetween(a: string, rep: string, b: string)
    ensures OccursAt(a + rep + b, rep, |a|)
  {
    assert (a + rep + b)[|a|..|a| + |rep|] == rep;
  }

  /** When the (non-empty) pattern occurs, the replacement shows up in the result. */
  lemma ReplaceAllInserts(s: string, pat: string, rep: string)
    requires pat != [] && Contains(s, pat)
    ensures Contains(ReplaceAll(s, pat, rep), rep)
  {
    var i :| OccursAt(s, pat, i);
    var k := FirstOccurrence(s, pat, i);
    ReplaceAllLeftmost(s, pat, rep, k);
    OccursBetween(s[..k], rep, ReplaceAll(s[k + |pat|..], pat, rep));
  }

  /** A string without the (non-empty) pattern comes back unchanged. */
  lemma {:induction false} ReplaceAllWithoutMatch(s: string, pat: string, rep: string)
    requires pat != [] && !Contains(s, pat)
    ensures ReplaceAll(s, pat, rep) == s
    decreases |s|
  {
    if s != [] {
      forall j ensures !OccursAt(s[1..], pat, j) {
        OccursInTail(s, pat, j);
      }
      ReplaceAllWithoutMatch(s[1..], pat, rep);
    }
  }

  /** Replacing a non-empty pattern by itself changes nothing. */
  lemma {:induction false} ReplaceAllIdentity(s: string, pat: string)
    requires pat != []
    ensures ReplaceAll(s, pat, pat) == s
    decreases |s|
  {
    if OccursAt(s, pat, 0) {
      ReplaceAllIdentity(s[|pat|..], pat);
      assert s == pat + s[|pat|..];
    } else if s != [] {
      ReplaceAllIdentity(s[1..], pat);
      assert s == [s[0]] + s[1..];
    }
  }

  /** If `y` occurs in `x`, the first character of `y` is a character of `x`. */
  lemma OccurrenceShares(x: string, y: string, j: int)
    ensures OccursAt(x, y, j) && y != [] ==> y[0] in x && y[0] in y
  {
    if OccursAt(x, y, j) && y != [] {
      assert y[0] == x[j];
    }
  }

  /** If a tail of `x` starts `y`, the first character of `y` and the last of `x`
      are shared. */
  lemma OverhangShares(x: string, y: string, m: int)
    ensures Overhang(x, y, m) ==> y[0] in x && y[0] in y && x[|x| - 1] in y && x[|x| - 1] in x
  {
    if Overhang(x, y, m) {
      assert y[0] == y[..m][0] == x[|x| - m..][0] == x[|x| - m];
      assert x[|x| - 1] == x[|x| - m..][m - 1] == y[..m][m - 1] == y[m - 1];
    }
  }

  /** A replacement that shares no character with the pattern cannot recreate it. */
  lemma DisjointCannotRecreate(pat: string, rep: string)
    requires pat != [] && rep != []
    requires forall c :: c in rep ==> c !in pat
    ensures CannotRecreate(pat, rep)
  {
    forall j ensures !OccursAt(rep, pat, j) {
      OccurrenceShares(rep, pat, j);
    }
    forall m ensures !Overhang(rep, pat, m) {
      OverhangShares(rep, pat, m);
    }
    forall m ensures !Overhang(pat, rep, m) {
      OverhangShares(pat, rep, m);
    }
    forall o ensures !OccursAt(pat, rep, o) {
      OccurrenceShares(pat, rep, o);
    }
  }

  /** `"[" + name + "]"`. */
  function Placeholder(name: string): (p: string)
    ensures |p| == |name| + 2 && p[0] == '[' && p[|p| - 1] == ']'
    ensures p[1..|p| - 1] == name
  {
    "[" + name + "]"
  }

  /** An occurrence strictly inside `[name]` is an occurrence inside `name`. */
  lemma InsidePlaceholder(name: string, rep: string, o: int)
    ensures 0 < o && o + |rep| < |Placeholder(name)| && OccursAt(Placeholder(name), rep, o) ==>
      OccursAt(name, rep, o - 1)
  {
    var pat := Placeholder(name);
    if 0 < o && o + |rep| < |pat| && OccursAt(pat, rep, o) {
      assert name[o - 1..o - 1 + |rep|] == rep by {
        forall x | 0 <= x < |rep| ensures name[o - 1..o - 1 + |rep|][x] == rep[x] {
          assert pat[o + x] == name[o - 1 + x];
        }
      }
    }
  }

  /** A bracket-free replacement can recreate `[name]` only by landing inside `name`. */
  lemma BracketFreeCannotRecreate(name: string, rep: string)
    requires NoBrackets(rep)
    requires !Contains(name, rep)
    ensures CannotRecreate(Placeholder(name), rep)
  {
    var pat := Placeholder(name);
    forall j ensures !OccursAt(rep, pat, j) {
      OccurrenceShares(rep, pat, j);
    }
    forall m ensures !Overhang(rep, pat, m) {
      OverhangShares(rep, pat, m);
    }
    forall m ensures !Overhang(pat, rep, m) {
      OverhangShares(pat, rep, m);
    }
    forall o | 0 < o && o + |rep| < |pat| ensures !OccursAt(pat, rep, o) {
      InsidePlaceholder(name, rep, o);
    }
  }

  /** Where two placeholders can overlap: only if they are the same or one of the
      names holds a bracket. */
  lemma PlaceholderOverlap(s: string, k: string, u: string, i: int, j: int)
    ensures OccursAt(s, Placeholder(u), i) && OccursAt(s, Placeholder(k), j) ==>
      || j + |Placeholder(k)| <= i || i + |Placeholder(u)| <= j
      || k == u || !NoBrackets(k) || !NoBrackets(u)
  {
    var pk, pu := Placeholder(k), Placeholder(u);
    if OccursAt(s, pu, i) && OccursAt(s, pk, j) {
      assert forall y :: 0 <= y < |pk| ==> pk[y] == s[j + y];
      assert forall y :: 0 <= y < |pu| ==> pu[y] == s[i + y];
      if j < i < j + |pk| {
        assert pk[i - j] == pu[0] == '[';
        assert k[i - j - 1] == '[';
      } else if i < j < i + |pu| {
        assert pu[j - i] == pk[0] == '[';
        assert u[j - i - 1] == '[';
      } else if i == j {
        if |k| < |u| {
          assert u[|k|] == pu[|k| + 1] == pk[|k| + 1] == ']';
        } else if |u| < |k| {
          assert k[|u|] == pk[|u| + 1] == pu[|u| + 1] == ']';
        } else {
          forall x | 0 <= x < |k| ensures k[x] == u[x] {
            assert pk[x + 1] == k[x] && pu[x + 1] == u[x];
          }
        }
      }
    }
  }

  /** A bracket-free string can meet a placeholder only inside its name. */
  lemma BracketFreeMeetsPlaceholder(s: string, k: string, w: string, i: int, j: int)
    requires w != [] && NoBrackets(w) && OccursAt(s, w, i) && OccursAt(s, Placeholder(k), j)
    ensures j + |Placeholder(k)| <= i || i + |w| <= j || OccursAt(k, w, i - j - 1)
  {
    var p := Placeholder(k);
    if !(j + |p| <= i || i + |w| <= j) {
      assert s[j] == p[0] && s[j + |p| - 1] == p[|p| - 1];
      assert forall x :: i <= x < i + |w| ==> s[x] == w[x - i] && w[x - i] in w;
      forall y | 0 <= y < |w| ensures k[i - j - 1 + y] == w[y] {
        assert s[i + y] == w[y] && s[i + y] == p[i + y - j];
        assert p[1..|p| - 1][i + y - j - 1] == p[i + y - j];
      }
      assert k[i - j - 1..i - j - 1 + |w|] == w;
    }
  }

  /** A bracket-free string that lies inside no replaced name survives the
      replacement of that name's placeholder. */
  lemma ReplaceAllKeepsValue(s: string, k: string, rep: string, w: string)
    requires w != [] && NoBrackets(w) && !Contains(k, w) && Contains(s, w)
    ensures Contains(ReplaceAll(s, Placeholder(k), rep), w)
  {
    var i :| OccursAt(s, w, i);
    forall j | OccursAt(s, Placeholder(k), j) ensures j + |Placeholder(k)| <= i || i + |w| <= j {
      BracketFreeMeetsPlaceholder(s, k, w, i, j);
    }
    ReplaceAllKeepsOccurrence(s, Placeholder(k), rep, w, i);
  }

  /** The placeholder of a bracket-free name survives the replacement of the
      placeholder of another bracket-free name. */
  lemma ReplaceAllKeepsPlaceholder(s: string, k: string, rep: string, u: string)
    requires NoBrackets(k) && NoBrackets(u) && k != u && Contains(s, Placeholder(u))
    ensures Contains(ReplaceAll(s, Placeholder(k), rep), Placeholder(u))
  {
    var i :| OccursAt(s, Placeholder(u), i);
    forall j | OccursAt(s, Placeholder(k), j) ensures j + |Placeholder(k)| <= i || i + |Placeholder(u)| <= j {
      PlaceholdersDoNotOverlap(s, k, u, i, j);
    }
    ReplaceAllKeepsOccurrence(s, Placeholder(k), rep, Placeholder(u), i);
  }

  /** Two placeholders with different bracket-free names never overlap. */
  lemma PlaceholdersDoNotOverlap(s: string, k: string, u: string, i: int, j: int)
    requires NoBrackets(k) && NoBrackets(u) && k != u
    ensures OccursAt(s, Placeholder(u), i) && OccursAt(s, Placeholder(k), j) ==>
      j + |Placeholder(k)| <= i || i + |Placeholder(u)| <= j
  {
    PlaceholderOverlap(s, k, u, i, j);
  }

  /** A bracket-free value equal to the name recreates the placeholder: `"[[1]]"`
      becomes `"[1]"` when `[1]` is replaced by `1`. */
  lemma ValueInsideNameRecreatesPlaceholder()
    ensures NoBrackets("1") && OccursAt(ReplaceAll("[[1]]", Placeholder("1"), "1"), Placeholder("1"), 0)
  {
    assert !OccursAt("[[1]]", "[1]", 0);
    assert OccursAt("[1]]", "[1]", 0);
    assert "[1]]"[3..] == "]";
    assert ReplaceAll("]", "[1]", "1") == "]";
    assert ReplaceAll("[1]]", "[1]", "1") == "1]";
    assert "[[1]]"[1..] == "[1]]";
  }

  /** A value that is a tail of the name can recreate a dependency name:
      `"xx1"` becomes `"x1"` when `x1` is replaced by `1`. */
  lemma ValueInsideNameRecreatesDependency()
    ensures !Contains("1", "x1") && OccursAt(ReplaceAll("xx1", "x1", "1"), "x1", 0)
  {
    assert forall j :: !OccursAt("1", "x1", j);
    assert "xx1"[0..2][1] != "x1"[1];
    assert OccursAt("x1", "x1", 0);
    assert "x1"[2..] == [];
    assert ReplaceAll("x1", "x1", "1") == "1";
    assert "xx1"[1..] == "x1";
  }

  /** A slice of `p + t` that lies inside `t`. */
  lemma SliceOfSuffix(p: string, t: string, a: int, b: int)
    requires |p| <= a <= b <= |p| + |t|
    ensures (p + t)[a..b] == t[a - |p|..b - |p|]
  {
  }

  /** Where boundary `i` of the input lands when an empty pattern is replaced by `rep`. */
  function Slot(i: int, rep: string): int {
    i * (|rep| + 1)
  }

  lemma SlotShift(i: int, rep: string)
    ensures Slot(i, rep) == Slot(i - 1, rep) + |rep| + 1
  {
  }

  /** An empty pattern puts `rep` at each of the `|s| + 1` character boundaries. */
  lemma {:induction false} EmptyPatternLength(s: string, rep: string)
    ensures |ReplaceAll(s, [], rep)| == |s| + (|s| + 1) * |rep|
    decreases |s|
  {
    if s != [] {
      EmptyPatternLength(s[1..], rep);
      assert (|s| + 1) * |rep| == (|s[1..]| + 1) * |rep| + |rep|;
    }
  }

  /** With an empty pattern, character `i` of `s` follows the copy of `rep` at slot `i`. */
  lemma {:induction false} EmptyPatternKeeps(s: string, rep: string)
    ensures forall i :: 0 <= i < |s| ==>
      Slot(i, rep) + |rep| < |ReplaceAll(s, [], rep)| && ReplaceAll(s, [], rep)[Slot(i, rep) + |rep|] == s[i]
    decreases |s|
  {
    EmptyPatternLength(s, rep);
    if s != [] {
      var t := ReplaceAll(s[1..], [], rep);
      var r := ReplaceAll(s, [], rep);
      assert r == (rep + [s[0]]) + t;
      EmptyPatternKeeps(s[1..], rep);
      forall i | 0 < i < |s| ensures Slot(i, rep) + |rep| < |r| && r[Slot(i, rep) + |rep|] == s[i] {
        SlotShift(i, rep);
        assert s[i] == s[1..][i - 1];
      }
    }
  }

  /** With an empty pattern, every slot holds a copy of `rep`, the last one at the end. */
  lemma {:induction false} EmptyPatternSlots(s: string, rep: string)
    ensures forall i :: 0 <= i <= |s| ==> OccursAt(ReplaceAll(s, [], rep), rep, Slot(i, rep))
    decreases |s|
  {
    EmptyPatternLength(s, rep);
    if s == [] {
      assert ReplaceAll(s, [], rep)[0..|rep|] == rep;
    } else {
      var t := ReplaceAll(s[1..], [], rep);
      var p := rep + [s[0]];
      var r := ReplaceAll(s, [], rep);
      assert r == p + t;
      EmptyPatternSlots(s[1..], rep);
      assert r[0..|rep|] == rep;
      forall i | 0 < i <= |s| ensures OccursAt(r, rep, Slot(i, rep)) {
        SlotShift(i, rep);
        assert OccursAt(t, rep, Slot(i - 1, rep));
        SliceOfSuffix(p, t, Slot(i, rep), Slot(i, rep) + |rep|);
      }
    }
  }

  /** A key with a bracket in it can swallow the placeholder of another,
      bracket-free name: replacing `[x]]` by `1` turns `[x]]` into `1`, and the
      placeholder `[x]` of the unknown name `x` is gone. */
  lemma BracketedKeyDestroysUnknown()
    ensures NoBrackets("x") && !NoBrackets("x]") && OccursAt("[x]]", Placeholder("x"), 0)
    ensures ReplaceAll("[x]]", Placeholder("x]"), "1") == "1"
    ensures !Contains(ReplaceAll("[x]]", Placeholder("x]"), "1"), Placeholder("x"))
  {
    assert OccursAt("[x]]", "[x]]", 0);
    assert "[x]]"[4..] == [];
  }
}
