// The versions the project releases: three numeric components and, for a
// pre-release, a channel word and a number.
module ReleaseScheme {
  import opened Text
  import opened Versions
  import opened GitDescribe

  /** A pre-release label `word.number`. */
  datatype Mark = Mark(word: string, number: string)

  datatype Scheme = Scheme(base: Base, pre: Option<Mark>)

  /** A channel word: not a number, and without the separators. */
  predicate IsWord(w: string) { w != "" && !IsNumeral(w) && '.' !in w && '+' !in w }

  predicate InScheme(s: Scheme) {
    Numeric(s.base) && (s.pre.Some? ==> IsWord(s.pre.value.word) && IsNumeral(s.pre.value.number))
  }

  function MarkText(m: Mark): string { m.word + "." + m.number }

  function Tail(s: Scheme): string { if s.pre.None? then "" else MarkText(s.pre.value) }

  function VersionText(s: Scheme): string { Tailed(BaseText(s.base), Tail(s)) }

  lemma MarkSplits(m: Mark)
    requires IsWord(m.word) && IsNumeral(m.number)
    ensures Split(MarkText(m), '.') == [m.word, m.number]
    ensures '+' !in MarkText(m)
  {
    hide Split;
    var w, n := m.word, m.number;
    NumeralLacks(n, '+');
    NumeralLacks(n, '.');
    assert [w, n][1..] == [n];
    assert Join([w, n], '.') == w + ['.'] + n;
    SplitOfJoin([w, n], '.');
  }

  lemma ParsedOf(s: Scheme)
    requires InScheme(s)
    ensures Parse(VersionText(s))
         == Some(ParsedVersion(VersionText(s), BaseParts(s.base),
                               if s.pre.None? then [] else [s.pre.value.word, s.pre.value.number]))
  {
    hide Parse, BaseText, Split, Values, IsBareSemver, MarkText;
    var base, tail := BaseText(s.base), Tail(s);
    if s.pre.Some? { MarkSplits(s.pre.value); }
    SplitBase(s.base);
    BaseValues(s.base);
    ParseBare(base, tail, "");
    if s.pre.Some? { MarkLength(s.pre.value); }
    assert VersionText(s) + "" == VersionText(s);
  }

  lemma MarkLength(m: Mark)
    ensures |MarkText(m)| > 0
  {
  }

  lemma {:induction false} NumbersCompare(m: string, n: string)
    requires IsNumeral(m) && IsNumeral(n)
    ensures CompareIdentifiers(m, n) == Value(m) as int - Value(n) as int
  {
  }

  /** The manifests order two labels by word, then by number. */
  lemma MarksCompared(a: Mark, b: Mark)
    requires IsWord(a.word) && IsWord(b.word) && IsNumeral(a.number) && IsNumeral(b.number)
    ensures CompareLabels([a.word, a.number], [b.word, b.number]) > 0
       <==> Less(b.word, a.word) || (a.word == b.word && Value(a.number) > Value(b.number))
  {
    hide Value;
    var w, w', m, n := a.word, b.word, a.number, b.number;
    LessTotal(w, w');
    LessIrreflexive(w);
    if Less(w, w') { LessAsymmetric(w, w'); }
    assert CompareIdentifiers(w, w') == if w == w' then 0 else if Less(w, w') then -1 else 1;
    assert [w, m][1..] == [m] && [w', n][1..] == [n];
    assert [m][1..] == [] && [n][1..] == [];
    assert CompareLabels([], []) == 0;
    assert CompareIdentifiers(m, n) == Value(m) - Value(n) by { NumbersCompare(m, n); }
  }
}
