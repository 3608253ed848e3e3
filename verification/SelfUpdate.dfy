// The command-line client's own comparator, and how far it agrees with the one
// the release manifests are built with.
module SelfUpdate {
  import opened Text
  import opened Versions
  import opened GitDescribe
  import opened ReleaseScheme

  const INT_MAX: int := 0x7FFF_FFFF_FFFF_FFFF

  /** `strconv.Atoi`: an optional sign, digits, within a 64-bit int. */
  function Atoi(s: string): Option<int> {
    var signed := s != [] && (s[0] == '+' || s[0] == '-');
    var digits := if signed then s[1..] else s;
    if !IsNumeral(digits) then None
    else
      var v: int := Value(digits);
      var n := if s[0] == '-' then -v else v;
      if -INT_MAX - 1 <= n <= INT_MAX then Some(n) else None
  }

  /** A numeral with or without a sign is read as its value when that fits 64 bits; nothing else is read. */
  lemma {:induction false} AtoiReads(s: string)
    ensures IsNumeral(s) ==> Atoi(s) == (if Value(s) <= 0x7FFF_FFFF_FFFF_FFFF then Some(Value(s)) else None)
    ensures s != "" && s[0] == '+' && IsNumeral(s[1..]) ==>
              Atoi(s) == if Value(s[1..]) <= 0x7FFF_FFFF_FFFF_FFFF then Some(Value(s[1..])) else None
    ensures s != "" && s[0] == '-' && IsNumeral(s[1..]) ==>
              var v: int := Value(s[1..]); Atoi(s) == if v <= 0x8000_0000_0000_0000 then Some(-v) else None
    ensures !IsNumeral(s) && (s == "" || (s[0] != '+' && s[0] != '-') || !IsNumeral(s[1..])) ==> Atoi(s).None?
  {
    hide Value;
    assert IsNumeral(s) ==> IsDigit(s[0]);
  }

  datatype CalVer = CalVer(core: seq<int>, prerelease: string)

  predicate AllInts(parts: seq<string>) { forall i :: 0 <= i < |parts| ==> Atoi(parts[i]).Some? }

  function Ints(parts: seq<string>): (r: seq<int>)
    requires AllInts(parts)
    ensures |r| == |parts| && forall i :: 0 <= i < |r| ==> r[i] == Atoi(parts[i]).value
  {
    if parts == [] then []
    else
      assert Atoi(parts[|parts| - 1]).Some?;
      Ints(parts[..|parts| - 1]) + [Atoi(parts[|parts| - 1]).value]
  }

  /** `YYYY.MM.DD[-prerelease]`. */
  function Split3(v: string): Option<CalVer> {
    var parts := Split(Before(v, '-'), '.');
    if |parts| == 3 && AllInts(parts)
    then Some(CalVer(Ints(parts), if '-' in v then v[IndexOf(v, '-') + 1..] else ""))
    else None
  }

  method SplitCalver(v: string) returns (r: Option<CalVer>)
    ensures r == Split3(v)
  {
    hide Atoi, Split;
    var s, prerelease := v, "";
    var i := IndexOf(s, '-');
    if i >= 0 {
      prerelease := s[i + 1..];
      s := s[..i];
    }
    assert s == Before(v, '-');
    var parts := Split(s, '.');
    if |parts| != 3 { return None; }
    var core: seq<int> := [];
    var k := 0;
    while k < |parts|
      invariant 0 <= k <= |parts|
      invariant AllInts(parts[..k]) && core == Ints(parts[..k])
    {
      var n := Atoi(parts[k]);
      if n.None? { return None; }
      assert parts[..k + 1][..k] == parts[..k];
      core := core + [n.value];
      k := k + 1;
    }
    assert parts[..k] == parts;
    r := Some(CalVer(core, prerelease));
  }

  /** The first differing core component decides. */
  function CoreSign(a: seq<int>, b: seq<int>): int
    requires |a| == |b|
  {
    if a == [] then 0 else if a[0] != b[0] then (if a[0] > b[0] then 1 else -1) else CoreSign(a[1..], b[1..])
  }

  /** A release outranks its pre-releases; two labels compare as text. */
  predicate LabelNewer(a: string, b: string) {
    if a == "" && b != "" then true
    else if a != "" && b == "" then false
    else Less(b, a)
  }

  predicate CalNewer(a: CalVer, b: CalVer)
    requires |a.core| == |b.core|
  {
    var c := CoreSign(a.core, b.core);
    c > 0 || (c == 0 && LabelNewer(a.prerelease, b.prerelease))
  }

  /** An unparseable latest is never newer; an unparseable current is always behind. */
  predicate Newer(latest: string, current: string) {
    var l, c := Split3(latest), Split3(current);
    l.Some? && (c.None? || CalNewer(l.value, c.value))
  }

  method VersionNewer(latest: string, current: string) returns (newer: bool)
    ensures newer == Newer(latest, current)
  {
    var l := SplitCalver(latest);
    var c := SplitCalver(current);
    if l.None? { return false; }
    if c.None? { return true; }
    hide Split3, CoreSign, Less;
    assert |l.value.core| == 3 && |c.value.core| == 3 by { CoreLength(latest); CoreLength(current); }
    var i := 0;
    assert l.value.core[0..] == l.value.core && c.value.core[0..] == c.value.core;
    while i < |l.value.core|
      invariant 0 <= i <= 3
      invariant CoreSign(l.value.core, c.value.core) == CoreSign(l.value.core[i..], c.value.core[i..])
    {
      CoreStep(l.value.core, c.value.core, i);
      if l.value.core[i] != c.value.core[i] { return l.value.core[i] > c.value.core[i]; }
      i := i + 1;
    }
    CoreStep(l.value.core, c.value.core, i);
    var lp, cp := l.value.prerelease, c.value.prerelease;
    if lp == "" && cp != "" { return true; }
    if lp != "" && cp == "" { return false; }
    newer := Less(cp, lp);
  }

  /** What one pass of the loop over the components decides. */
  lemma CoreStep(a: seq<int>, b: seq<int>, i: nat)
    requires |a| == |b| && i <= |a|
    ensures CoreSign(a[i..], b[i..])
         == if i == |a| then 0 else if a[i] != b[i] then (if a[i] > b[i] then 1 else -1) else CoreSign(a[i + 1..], b[i + 1..])
  {
    if i < |a| { assert a[i..][1..] == a[i + 1..] && b[i..][1..] == b[i + 1..]; }
  }

  lemma CoreLength(v: string)
    requires Split3(v).Some?
    ensures |Split3(v).value.core| == 3
  {
  }

  // --------------------------------------------------------------- a strict weak order

  lemma {:induction false} CoreSignFacts(a: seq<int>, b: seq<int>, c: seq<int>)
    requires |a| == |b| == |c|
    ensures CoreSign(a, a) == 0
    ensures CoreSign(a, b) == -CoreSign(b, a)
    ensures CoreSign(a, b) >= 0 && CoreSign(b, c) >= 0 ==> CoreSign(a, c) >= 0
    ensures CoreSign(a, b) >= 0 && CoreSign(b, c) >= 0 && CoreSign(a, c) == 0 ==> CoreSign(a, b) == 0 && CoreSign(b, c) == 0
    ensures -1 <= CoreSign(a, b) <= 1
  {
    if a != [] { CoreSignFacts(a[1..], b[1..], c[1..]); }
  }

  lemma LabelFacts(a: string, b: string, c: string)
    ensures !LabelNewer(a, a)
    ensures LabelNewer(a, b) ==> !LabelNewer(b, a)
    ensures LabelNewer(a, b) && LabelNewer(b, c) ==> LabelNewer(a, c)
    ensures LabelNewer(a, b) ==> LabelNewer(a, c) || LabelNewer(c, b)
  {
    LessIrreflexive(a);
    if Less(b, a) { LessAsymmetric(b, a); }
    if Less(b, a) && Less(c, b) { LessTransitive(c, b, a); }
    if Less(b, a) && !Less(c, a) {
      LessTotal(c, a);
      if c != a { LessTransitive(b, a, c); }
    }
  }

  /** Irreflexive, transitive, and a version between two others is beaten or beats: a strict weak order on all strings. */
  lemma NewerIsStrictWeakOrder(a: string, b: string, c: string)
    ensures !Newer(a, a)
    ensures Newer(a, b) && Newer(b, c) ==> Newer(a, c)
    ensures Newer(a, b) ==> Newer(a, c) || Newer(c, b)
  {
    hide Split3, LabelNewer, CoreSign;
    var x, y, z := Split3(a), Split3(b), Split3(c);
    if x.Some? { CoreLength(a); }
    if y.Some? { CoreLength(b); }
    if z.Some? { CoreLength(c); }
    if x.Some? {
      CoreSignFacts(x.value.core, x.value.core, x.value.core);
      LabelFacts(x.value.prerelease, x.value.prerelease, x.value.prerelease);
    }
    if x.Some? && y.Some? && z.Some? {
      CoreSignFacts(x.value.core, y.value.core, z.value.core);
      CoreSignFacts(y.value.core, x.value.core, z.value.core);
      CoreSignFacts(x.value.core, z.value.core, y.value.core);
      CoreSignFacts(y.value.core, z.value.core, x.value.core);
      CoreSignFacts(z.value.core, x.value.core, y.value.core);
      LabelFacts(x.value.prerelease, y.value.prerelease, z.value.prerelease);
    }
  }

  /** Strings that do not parse all tie below every version. */
  lemma UnparseableAtBottom(bad: string, v: string)
    requires Split3(bad).None?
    ensures !Newer(bad, v)
    ensures Newer(v, bad) <==> Split3(v).Some?
  {
  }

  // ------------------------------------------------- agreement with the manifest order

  /** Three components that fit an int. */
  predicate IntBase(b: Base) {
    && Numeric(b)
    && Value(b.major) <= INT_MAX && Value(b.minor) <= INT_MAX && Value(b.patch) <= INT_MAX
  }

  function Core(b: Base): seq<int>
    requires IntBase(b)
  { [Value(b.major), Value(b.minor), Value(b.patch)] }

  lemma {:induction false} NumeralAtoi(s: string)
    requires IsNumeral(s) && Value(s) <= INT_MAX
    ensures Atoi(s) == Some(Value(s))
  {
    assert IsDigit(s[0]);
  }

  lemma SplitTailed(b: Base, tail: string)
    requires IntBase(b)
    ensures Split3(Tailed(BaseText(b), tail)) == Some(CalVer(Core(b), tail))
  {
    hide Split, BaseText, Atoi, Value;
    SplitBase(b);
    assert '-' !in BaseText(b) by { BareLacks(BaseText(b), '-'); }
    TailSplitsOff(BaseText(b), tail);
    var parts := [b.major, b.minor, b.patch];
    NumeralAtoi(b.major);
    NumeralAtoi(b.minor);
    NumeralAtoi(b.patch);
    assert AllInts(parts);
    assert Ints(parts) == Core(b);
  }

  lemma {:induction false} ParseTailed(b: Base, tail: string)
    requires IntBase(b) && '+' !in tail
    ensures Parse(Tailed(BaseText(b), tail))
         == Some(ParsedVersion(Tailed(BaseText(b), tail), BaseParts(b), if tail == "" then [] else Split(tail, '.')))
  {
    hide Parse, BaseText, Split, Values, IsBareSemver;
    SplitBase(b);
    BaseValues(b);
    ParseBare(BaseText(b), tail, "");
    assert Tailed(BaseText(b), tail) + "" == Tailed(BaseText(b), tail);
  }

  lemma CoresAgree(a: Base, b: Base)
    requires IntBase(a) && IntBase(b)
    ensures var c := CompareParts(BaseParts(a), BaseParts(b));
            var s := CoreSign(Core(a), Core(b));
            (c > 0 <==> s > 0) && (c == 0 <==> s == 0)
  {
    hide Value;
    CoreIsParts(Core(a), BaseParts(a), Core(b), BaseParts(b));
  }

  lemma {:induction false} CoreIsParts(a: seq<int>, a': seq<nat>, b: seq<int>, b': seq<nat>)
    requires |a| == |a'| == |b| == |b'|
    requires forall i :: 0 <= i < |a| ==> a[i] == a'[i] && b[i] == b'[i]
    ensures CoreSign(a, b) > 0 <==> CompareParts(a', b') > 0
    ensures CoreSign(a, b) == 0 <==> CompareParts(a', b') == 0
  {
    if a != [] {
      assert Rest(a') == a'[1..] && Rest(b') == b'[1..];
      CoreIsParts(a[1..], a'[1..], b[1..], b'[1..]);
    }
  }

  /** Client and manifests say the same about whether `x` is newer than `y`. */
  predicate SameVerdict(x: string, y: string) {
    && Parse(x).Some? && Parse(y).Some?
    && (Newer(x, y) <==> Compare(Parse(x).value, Parse(y).value) > 0)
  }

  /** The two comparators agree wherever the bases differ or at most one side carries a label. */
  lemma AgreesWithManifestOrder(a: Base, ta: string, b: Base, tb: string)
    requires IntBase(a) && IntBase(b) && '+' !in ta && '+' !in tb
    requires Core(a) != Core(b) || ta == "" || tb == ""
    ensures SameVerdict(Tailed(BaseText(a), ta), Tailed(BaseText(b), tb))
  {
    hide Split, Parse, Split3, BaseText, Tailed, CoreSign, CompareParts, IntBase, BaseParts, Core;
    SplitTailed(a, ta);
    SplitTailed(b, tb);
    ParseTailed(a, ta);
    ParseTailed(b, tb);
    CoresAgree(a, b);
    CoreDecides(a, b);
  }

  lemma CoreDecides(a: Base, b: Base)
    requires IntBase(a) && IntBase(b)
    ensures |Core(a)| == |Core(b)| && (CoreSign(Core(a), Core(b)) == 0 <==> Core(a) == Core(b))
  {
    hide CoreSign;
    SameCore(Core(a), Core(b));
  }

  lemma {:induction false} SameCore(a: seq<int>, b: seq<int>)
    requires |a| == |b|
    ensures CoreSign(a, b) == 0 <==> a == b
  {
    if a != [] {
      SameCore(a[1..], b[1..]);
      assert a == [a[0]] + a[1..] && b == [b[0]] + b[1..];
    }
  }

  // ------------------------------------------- exactly when two labelled versions agree

  /** `a` is a proper prefix of `b`. */
  predicate Extends(b: string, a: string) { |a| < |b| && b[..|a|] == a }

  /**
   * Whether comparing two labels as text gives the order of word, then number:
   * with one word, the numerals have to sort as text the way they do as numbers;
   * with two, a longer word has to continue the shorter one above the dot.
   */
  predicate TextOrderFits(a: Mark, b: Mark)
    requires IsNumeral(a.number) && IsNumeral(b.number)
  {
    if a.word == b.word then Less(b.number, a.number) <==> Value(b.number) < Value(a.number)
    else if Extends(a.word, b.word) then a.word[|b.word|] > '.'
    else if Extends(b.word, a.word) then b.word[|a.word|] > '.'
    else true
  }

  /** Texts that differ before either ends are ordered the same whatever follows. */
  lemma {:induction false} LessDecided(a: string, b: string, x: string, y: string)
    requires a != b && !Extends(a, b) && !Extends(b, a)
    ensures Less(a + x, b + y) == Less(a, b)
  {
    if a != [] && b != [] && a[0] == b[0] {
      assert (a + x)[1..] == a[1..] + x && (b + y)[1..] == b[1..] + y;
      assert a == [a[0]] + a[1..] && b == [b[0]] + b[1..];
      assert Extends(a[1..], b[1..]) ==> Extends(a, b);
      assert Extends(b[1..], a[1..]) ==> Extends(b, a);
      LessDecided(a[1..], b[1..], x, y);
    }
  }

  /** A word and a longer one that continues it: the dot meets the continuation. */
  lemma {:induction false} ExtendedCompared(short: string, long: string, m: string, n: string)
    requires Extends(long, short) && '.' !in long
    ensures Less(short, long) && !Less(long, short)
    ensures Less(short + "." + m, long + "." + n) <==> '.' < long[|short|]
    ensures Less(long + "." + n, short + "." + m) <==> long[|short|] < '.'
  {
    var rest := long[|short|..];
    assert long == short + rest && short == short + [];
    LessAfterPrefix(short, [], rest);
    LessAfterPrefix(short, rest, []);
    var x, y := "." + m, rest + "." + n;
    assert short + "." + m == short + x && long + "." + n == short + y;
    LessAfterPrefix(short, x, y);
    LessAfterPrefix(short, y, x);
    assert x[0] == '.' && y[0] == rest[0] == long[|short|] && long[|short|] in long;
  }

  /** The text order of two labels against the order of word and number. */
  lemma MarksAsText(a: Mark, b: Mark)
    requires IsWord(a.word) && IsWord(b.word) && IsNumeral(a.number) && IsNumeral(b.number)
    ensures (Less(MarkText(b), MarkText(a)) <==> CompareLabels([a.word, a.number], [b.word, b.number]) > 0)
       <==> TextOrderFits(a, b)
  {
    hide CompareLabels, Less, IsNumeral;
    MarksCompared(a, b);
    LessIrreflexive(a.word);
    if a.word == b.word {
      LessAfterPrefix(a.word + ".", b.number, a.number);
    } else if Extends(a.word, b.word) {
      ExtendedCompared(b.word, a.word, b.number, a.number);
    } else if Extends(b.word, a.word) {
      ExtendedCompared(a.word, b.word, a.number, b.number);
    } else {
      LessDecided(b.word, a.word, "." + b.number, "." + a.number);
      assert MarkText(b) == b.word + ("." + b.number) && MarkText(a) == a.word + ("." + a.number);
    }
  }

  /**
   * Over all pairs of released versions, the client agrees with the manifests
   * exactly when the bases differ, at most one is a pre-release, or the labels
   * sort as text the way they do by word and number.
   */
  lemma ClientAgreesExactly(a: Scheme, b: Scheme)
    requires InScheme(a) && InScheme(b) && IntBase(a.base) && IntBase(b.base)
    ensures Parse(VersionText(a)).Some? && Parse(VersionText(b)).Some?
    ensures SameVerdict(VersionText(a), VersionText(b))
       <==> Core(a.base) != Core(b.base) || a.pre.None? || b.pre.None? || TextOrderFits(a.pre.value, b.pre.value)
  {
    hide Parse, BaseText, CoreSign, CompareParts, BaseParts, Core, MarkText, IsWord, IsNumeral, TextOrderFits;
    hide CompareLabels, Less, Newer, Compare, IntBase;
    assert '+' !in Tail(a) && '+' !in Tail(b) by {
      if a.pre.Some? { MarkSplits(a.pre.value); }
      if b.pre.Some? { MarkSplits(b.pre.value); }
    }
    if Core(a.base) != Core(b.base) || a.pre.None? || b.pre.None? {
      AgreesWithManifestOrder(a.base, Tail(a), b.base, Tail(b));
    } else {
      SameBaseCompared(a, b);
      MarksAsText(a.pre.value, b.pre.value);
    }
  }

  /** On one base each comparator decides by its own order of the labels. */
  lemma SameBaseCompared(a: Scheme, b: Scheme)
    requires InScheme(a) && InScheme(b) && IntBase(a.base) && IntBase(b.base)
    requires Core(a.base) == Core(b.base) && a.pre.Some? && b.pre.Some?
    ensures Parse(VersionText(a)).Some? && Parse(VersionText(b)).Some?
    ensures Newer(VersionText(a), VersionText(b)) <==> Less(MarkText(b.pre.value), MarkText(a.pre.value))
    ensures Compare(Parse(VersionText(a)).value, Parse(VersionText(b)).value)
         == CompareLabels([a.pre.value.word, a.pre.value.number], [b.pre.value.word, b.pre.value.number])
  {
    hide Parse, BaseText, CoreSign, CompareParts, BaseParts, Core, MarkText, Split3, CompareLabels, Less, IntBase, Tailed;
    SplitTailed(a.base, Tail(a));
    SplitTailed(b.base, Tail(b));
    ParsedOf(a);
    ParsedOf(b);
    CoresAgree(a.base, b.base);
    CoreDecides(a.base, b.base);
    MarkLength(a.pre.value);
    MarkLength(b.pre.value);
  }

  /** Nine ranks above ten for the client, ten above nine for the manifests. */
  lemma TenthBetaIsMissed(base: Base)
    requires IntBase(base)
    ensures var x, y := Tailed(BaseText(base), "beta.9"), Tailed(BaseText(base), "beta.10");
            && Newer(x, y)
            && Parse(x).Some? && Parse(y).Some? && Compare(Parse(x).value, Parse(y).value) < 0
  {
    hide BaseText, Tailed, Core, Newer, Parse, Compare, CompareLabels, Less;
    var a, b := Scheme(base, Some(Mark("beta", "9"))), Scheme(base, Some(Mark("beta", "10")));
    assert Value("9") == 9 && Value("10") == 10 by { SmallNumerals(); }
    assert !IsNumeral("beta") by { assert !IsDigit("beta"[0]); }
    assert "beta" + "." + "9" == "beta.9" && "beta" + "." + "10" == "beta.10";
    SameBaseCompared(a, b);
    assert Less("10", "9") by { assert "10"[0] < "9"[0]; FirstDecides("10", "9"); }
    LessAfterPrefix("beta.", "10", "9");
    assert "beta." + "10" == "beta.10" && "beta." + "9" == "beta.9";
    MarksCompared(b.pre.value, a.pre.value);
    LabelsAntisymmetric(["beta", "9"], ["beta", "10"]);
  }

  /** A word that continues another with a dash: the client takes the shorter word for the newer one. */
  lemma DashedWordIsMissed(base: Base)
    requires IntBase(base)
    ensures var x, y := Tailed(BaseText(base), "beta.1"), Tailed(BaseText(base), "beta-x.1");
            && Newer(x, y)
            && Parse(x).Some? && Parse(y).Some? && Compare(Parse(x).value, Parse(y).value) < 0
  {
    hide BaseText, Tailed, Core, Newer, Parse, Compare, CompareLabels, Less;
    var a, b := Scheme(base, Some(Mark("beta", "1"))), Scheme(base, Some(Mark("beta-x", "1")));
    assert !IsNumeral("beta") by { assert !IsDigit("beta"[0]); }
    assert !IsNumeral("beta-x") by { assert !IsDigit("beta-x"[0]); }
    assert "beta" + "." + "1" == "beta.1" && "beta-x" + "." + "1" == "beta-x.1";
    assert "beta-x"[..4] == "beta" && "beta-x"[4] < '.';
    SameBaseCompared(a, b);
    ExtendedCompared("beta", "beta-x", "1", "1");
    MarksCompared(b.pre.value, a.pre.value);
    LabelsAntisymmetric(["beta", "1"], ["beta-x", "1"]);
  }

  lemma {:induction false} FirstDecides(a: string, b: string)
    requires a != "" && b != "" && a[0] < b[0]
    ensures Less(a, b)
  {
  }

  lemma SmallNumerals()
    ensures IsNumeral("1") && IsNumeral("9") && IsNumeral("10")
    ensures Value("9") == 9 && Value("10") == 10
  {
    assert "9"[..0] == "" && "10"[..1] == "1" && "1"[..0] == "";
    assert Value("1") == 1;
  }
}
