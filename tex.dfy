/** The LaTeX document that `main` accumulates in `tex_content`
    (src/main.rs, lines 47-50, 107-109 and 113): a fixed preamble, the seed
    line, three sections per rendered question, and the end marker. */
module Tex {
  import opened Model
  import opened Strings

  const Preamble: string := "\\documentclass{article}\n\\usepackage{amsmath}\n\\begin{document}\n"
  const SeedLabel: string := "Seed value: "
  const EndMarker: string := "\\end{document}\n"

  predicate IsDigit(c: char) {
    '0' <= c <= '9'
  }

  predicate AllDigits(s: string) {
    forall i :: 0 <= i < |s| ==> IsDigit(s[i])
  }

  /** A decimal numeral as `u64`'s `Display` writes it: no leading zero unless it is "0". */
  predicate Canonical(s: string) {
    s != [] && AllDigits(s) && (s[0] == '0' ==> |s| == 1)
  }

  function Digit(d: nat): (c: char)
    requires d < 10
    ensures IsDigit(c)
  {
    ('0' as int + d) as char
  }

  function DigitValue(c: char): (d: nat)
    requires IsDigit(c)
    ensures d < 10
  {
    c as int - '0' as int
  }

  /** The `{}` formatting of the seed. */
  function Decimal(n: nat): (s: string)
    ensures Canonical(s)
    ensures s[0] == '0' <==> n == 0
    decreases n
  {
    if n < 10 then [Digit(n)] else Decimal(n / 10) + [Digit(n % 10)]
  }

  /** The number a string of digits denotes. */
  function ValueOf(s: string): nat
    requires AllDigits(s)
    decreases |s|
  {
    if s == [] then 0 else 10 * ValueOf(s[..|s| - 1]) + DigitValue(s[|s| - 1])
  }

  lemma {:induction false} DecimalValueOf(n: nat)
    ensures ValueOf(Decimal(n)) == n
    decreases n
  {
    if n >= 10 {
      var s := Decimal(n);
      assert s[..|s| - 1] == Decimal(n / 10);
      DecimalValueOf(n / 10);
    }
  }

  lemma {:induction false} PositiveValue(s: string)
    requires AllDigits(s) && s != [] && s[0] != '0'
    ensures ValueOf(s) > 0
    decreases |s|
  {
    if |s| > 1 {
      PositiveValue(s[..|s| - 1]);
    }
  }

  /** Every canonical numeral is the formatting of the number it denotes. */
  lemma {:induction false} ValueOfDecimal(s: string)
    requires Canonical(s)
    ensures Decimal(ValueOf(s)) == s
    decreases |s|
  {
    if |s| > 1 {
      var p := s[..|s| - 1];
      PositiveValue(p);
      ValueOfDecimal(p);
      var v := ValueOf(s);
      assert v / 10 == ValueOf(p) && v % 10 == DigitValue(s[|s| - 1]);
      assert s == p + [s[|s| - 1]];
    }
  }

  /** Line 50. */
  function SeedLine(seed: U64): string {
    SeedLabel + Decimal(seed) + "\n"
  }

  /** The seed line is the label, then the seed as a canonical decimal numeral, then a newline. */
  lemma SeedLineForm(seed: U64)
    ensures var line := SeedLine(seed);
      && |SeedLabel| + 1 < |line| && line[..|SeedLabel|] == SeedLabel && line[|line| - 1] == '\n'
      && Canonical(line[|SeedLabel|..|line| - 1]) && ValueOf(line[|SeedLabel|..|line| - 1]) == seed as nat
  {
    var d := Decimal(seed);
    assert SeedLine(seed)[|SeedLabel|..|SeedLine(seed)| - 1] == d;
    DecimalValueOf(seed);
  }

  /** The digits at the head of `s`. */
  function LeadingDigits(s: string): (d: string)
    ensures AllDigits(d) && |d| <= |s| && d == s[..|d|]
    ensures |d| < |s| ==> !IsDigit(s[|d|])
    decreases |s|
  {
    if s != [] && IsDigit(s[0]) then [s[0]] + LeadingDigits(s[1..]) else []
  }

  lemma {:induction false} LeadingDigitsOf(d: string, t: string)
    requires AllDigits(d) && (t == [] || !IsDigit(t[0]))
    ensures LeadingDigits(d + t) == d
    decreases |d|
  {
    if d != [] {
      assert (d + t)[1..] == d[1..] + t;
      LeadingDigitsOf(d[1..], t);
    } else {
      assert d + t == t;
    }
  }

  /** Reads the seed back from a document: the number written after the
      preamble and the seed label. */
  function RecordedSeed(doc: string): Option<nat> {
    var head := Preamble + SeedLabel;
    if |head| <= |doc| && doc[..|head|] == head then
      var digits := LeadingDigits(doc[|head|..]);
      if digits == [] then None else Some(ValueOf(digits))
    else None
  }

  /** The three texts of one rendered question. */
  datatype Triple = Triple(question: string, answer: string, solution: string)

  /** `format!("\\section*{{<title>}}\n{}\n", body)`. */
  function Section(title: string, body: string): string {
    "\\section*{" + title + "}\n" + body + "\n"
  }

  /** A section opens with its heading line, holds its body verbatim and ends with a newline. */
  lemma SectionForm(title: string, body: string)
    ensures var head := "\\section*{" + title + "}\n";
      var s := Section(title, body);
      && |s| == |head| + |body| + 1 && s[..|head|] == head
      && s[|head|..|s| - 1] == body && s[|s| - 1] == '\n'
  {
  }

  /** Lines 107-109. */
  function Block(t: Triple): string {
    Section("Question", t.question) + Section("Answer", t.answer) + Section("Solution", t.solution)
  }

  /** The blocks of the rendered questions, in the order they were pushed. */
  function Blocks(ts: seq<Triple>): string
    decreases |ts|
  {
    if ts == [] then [] else Blocks(ts[..|ts| - 1]) + Block(ts[|ts| - 1])
  }

  /** `tex_content` once lines 48-50 have run. */
  function Opening(seed: U64): string {
    Preamble + SeedLine(seed)
  }

  /** The whole of `tex_content` once line 113 has run. */
  function Document(seed: U64, ts: seq<Triple>): string {
    Opening(seed) + Blocks(ts) + EndMarker
  }

  /** Pushing one more rendered question appends its block. */
  lemma BlocksPush(ts: seq<Triple>, t: Triple)
    ensures Blocks(ts + [t]) == Blocks(ts) + Block(t)
  {
    assert (ts + [t])[..|ts|] == ts;
  }

  lemma DropLast<T>(xs: seq<T>, ys: seq<T>)
    requires ys != []
    ensures (xs + ys)[..|xs + ys| - 1] == xs + ys[..|ys| - 1]
    ensures (xs + ys)[|xs + ys| - 1] == ys[|ys| - 1]
  {
  }

  lemma AppendEmpty<T>(xs: seq<T>)
    ensures xs + [] == xs
  {
  }

  lemma {:induction false} BlocksAppend(xs: seq<Triple>, ys: seq<Triple>)
    ensures Blocks(xs + ys) == Blocks(xs) + Blocks(ys)
    decreases |ys|
  {
    if ys == [] {
      AppendEmpty(xs);
    } else {
      var init, last := ys[..|ys| - 1], ys[|ys| - 1];
      DropLast(xs, ys);
      BlocksAppend(xs, init);
      Associative(Blocks(xs), Blocks(init), Block(last));
    }
  }

  lemma SplitAround<T>(s: seq<T>, i: nat)
    requires i < |s|
    ensures s == (s[..i] + [s[i]]) + s[i + 1..]
  {
  }

  /** Each rendered question's block sits between those of the questions
      rendered before it and those rendered after it. */
  lemma BlocksInOrder(ts: seq<Triple>, i: nat)
    requires i < |ts|
    ensures Blocks(ts) == Blocks(ts[..i]) + Block(ts[i]) + Blocks(ts[i + 1..])
  {
    var a, c := ts[..i], ts[i + 1..];
    SplitAround(ts, i);
    BlocksAppend(a + [ts[i]], c);
    BlocksPush(a, ts[i]);
    Associative(Blocks(a), Block(ts[i]), Blocks(c));
  }

  lemma Frame(p: string, s: string, b: string, e: string)
    ensures var doc := ((p + s) + b) + e;
      && |p| + |s| + |e| <= |doc|
      && doc[..|p|] == p && doc[|p|..|p| + |s|] == s && doc[|doc| - |e|..] == e
  {
  }

  /** The document opens with the preamble and the seed line and closes with
      the end marker. */
  lemma DocumentFraming(seed: U64, ts: seq<Triple>)
    ensures |Preamble| + |SeedLine(seed)| + |EndMarker| <= |Document(seed, ts)|
    ensures Document(seed, ts)[..|Preamble|] == Preamble
    ensures Document(seed, ts)[|Preamble|..|Preamble| + |SeedLine(seed)|] == SeedLine(seed)
    ensures Document(seed, ts)[|Document(seed, ts)| - |EndMarker|..] == EndMarker
  {
    Frame(Preamble, SeedLine(seed), Blocks(ts), EndMarker);
  }

  lemma SplitAt(h: string, x: string)
    ensures |h| <= |h + x| && (h + x)[..|h|] == h && (h + x)[|h|..] == x
  {
  }

  lemma Regroup(p: string, l: string, d: string, n: string, b: string, e: string)
    ensures ((p + ((l + d) + n)) + b) + e == (p + l) + (d + ((n + b) + e))
  {
  }

  /** The seed can be read back from the document. */
  lemma SeedRecorded(seed: U64, ts: seq<Triple>)
    ensures RecordedSeed(Document(seed, ts)) == Some(seed as nat)
  {
    var d := Decimal(seed);
    var rest := "\n" + Blocks(ts) + EndMarker;
    Regroup(Preamble, SeedLabel, d, "\n", Blocks(ts), EndMarker);
    SplitAt(Preamble + SeedLabel, d + rest);
    LeadingDigitsOf(d, rest);
    DecimalValueOf(seed);
  }
}
