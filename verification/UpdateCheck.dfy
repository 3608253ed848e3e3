// The daemon's own "is this release newer" test, and the releases on which it
// agrees with the order the manifests were sorted by.
module UpdateCheck {
  import opened Text
  import opened Versions
  import opened GitDescribe
  import opened ReleaseScheme

  datatype Label = Label(name: string, number: nat)

  datatype Candidate = Candidate(base: seq<nat>, pre: Option<Label>)

  predicate AllU64(parts: seq<string>) { forall i :: 0 <= i < |parts| ==> ParseU64(parts[i]).Some? }

  function U64s(parts: seq<string>): (r: seq<nat>)
    requires AllU64(parts)
    ensures |r| == |parts| && forall i :: 0 <= i < |r| ==> r[i] == ParseU64(parts[i]).value
  {
    seq(|parts|, i requires 0 <= i < |parts| => ParseU64(parts[i]).value)
  }

  /** `beta.2` is `("beta", 2)`; a label without a trailing number counts as number 0. */
  function ParseLabel(p: string): Label {
    var dot := LastIndexOf(p, ".");
    if dot == -1 then Label(p, 0)
    else
      var n := ParseU64(p[dot + 1..]);
      Label(p[..dot], if n.Some? then n.value else 0)
  }

  function ParseCandidate(v: string): Option<Candidate> {
    var text := Before(v, '+');
    var parts := Split(Before(text, '-'), '.');
    if !AllU64(parts) then None
    else Some(Candidate(U64s(parts), if '-' in text then Some(ParseLabel(text[IndexOf(text, '-') + 1..])) else None))
  }

  /** `Vec` comparison: lexicographic, a proper prefix is smaller. */
  predicate VecGreater(a: seq<nat>, b: seq<nat>) {
    if a == [] then false
    else if b == [] then true
    else a[0] > b[0] || (a[0] == b[0] && VecGreater(a[1..], b[1..]))
  }

  predicate LabelGreater(a: Label, b: Label) {
    Less(b.name, a.name) || (a.name == b.name && a.number > b.number)
  }

  predicate IsNewer(candidate: string, current: string) {
    var c, r := ParseCandidate(candidate), ParseCandidate(current);
    && c.Some? && r.Some?
    && if c.value.base != r.value.base then VecGreater(c.value.base, r.value.base)
       else r.value.pre.Some? && (c.value.pre.None? || LabelGreater(c.value.pre.value, r.value.pre.value))
  }

  // ------------------------------------------------------- never both ways, never loops

  lemma {:induction false} VecFacts(a: seq<nat>, b: seq<nat>, c: seq<nat>)
    ensures VecGreater(a, b) ==> !VecGreater(b, a) && a != b
    ensures VecGreater(a, b) || a == b || VecGreater(b, a)
    ensures VecGreater(a, b) && VecGreater(b, c) ==> VecGreater(a, c)
    decreases |a| + |b| + |c|
  {
    if a != [] && b != [] {
      assert a == [a[0]] + a[1..] && b == [b[0]] + b[1..];
      VecFacts(a[1..], b[1..], if c == [] then [] else c[1..]);
    }
  }

  lemma LabelGreaterFacts(a: Label, b: Label, c: Label)
    ensures !LabelGreater(a, a)
    ensures LabelGreater(a, b) && LabelGreater(b, c) ==> LabelGreater(a, c)
  {
    LessIrreflexive(a.name);
    if Less(b.name, a.name) && Less(c.name, b.name) { LessTransitive(c.name, b.name, a.name); }
  }

  /** The test is a strict partial order, so two daemons cannot update to each other's release in turn. */
  lemma IsNewerIsStrictOrder(a: string, b: string, c: string)
    ensures !IsNewer(a, a)
    ensures IsNewer(a, b) && IsNewer(b, c) ==> IsNewer(a, c)
  {
    hide ParseCandidate, LabelGreater, VecGreater;
    var x, y, z := ParseCandidate(a), ParseCandidate(b), ParseCandidate(c);
    if x.Some? && x.value.pre.Some? {
      LabelGreaterFacts(x.value.pre.value, x.value.pre.value, x.value.pre.value);
    }
    if x.Some? && y.Some? && z.Some? {
      VecFacts(x.value.base, y.value.base, z.value.base);
      VecFacts(x.value.base, z.value.base, y.value.base);
      if x.value.pre.Some? && y.value.pre.Some? && z.value.pre.Some? {
        LabelGreaterFacts(x.value.pre.value, y.value.pre.value, z.value.pre.value);
      }
    }
  }

  // ------------------------------------------------------------- versions as written

  predicate U64Numeral(s: string) { IsNumeral(s) && Value(s) <= U64_MAX }

  predicate U64Segments(segments: seq<string>) {
    segments != [] && forall i :: 0 <= i < |segments| ==> U64Numeral(segments[i])
  }

  lemma {:induction false} NumeralU64(s: string)
    requires U64Numeral(s)
    ensures ParseU64(s) == Some(Value(s)) && '+' !in s && '.' !in s
  {
    assert IsDigit(s[0]);
    NumeralLacks(s, '+');
    NumeralLacks(s, '.');
  }

  /** Reading a candidate back: numeric segments, a tail after the dash, build metadata. */
  lemma {:induction false} CandidateWritten(segments: seq<string>, tail: string, build: string)
    requires U64Segments(segments)
    requires '+' !in tail && (build == "" || build[0] == '+')
    ensures AllU64(segments)
    ensures ParseCandidate(Tailed(Join(segments, '.'), tail) + build)
         == Some(Candidate(U64s(segments), if tail == "" then None else Some(ParseLabel(tail))))
  {
    hide Split, ParseU64, ParseLabel, Value, Join, Before, IndexOf;
    var base := Join(segments, '.');
    forall i | 0 <= i < |segments| ensures ParseU64(segments[i]).Some? { NumeralU64(segments[i]); }
    assert AllNumerals(segments);
    SegmentsLack(segments, '-');
    SegmentsLack(segments, '+');
    SegmentsLack(segments, '.');
    JoinLacks(segments, '.', '-');
    JoinLacks(segments, '.', '+');
    SplitOfJoin(segments, '.');
    BuildDropped(Tailed(base, tail), build);
    TailSplitsOff(base, tail);
    assert '-' in Tailed(base, tail) <==> tail != "";
  }

  /**
   * The labels the project writes: none, a channel word, a word and one more
   * part, and the three parts of a dirty development build.
   */
  datatype Suffix =
    | NoSuffix
    | OneWord(word: string)
    | TwoParts(word: string, part: string)
    | DirtyDev(count: string)

  predicate ValidSuffix(s: Suffix) {
    match s
    case NoSuffix => true
    case OneWord(word) => IsWord(word)
    case TwoParts(word, part) => IsWord(word) && '.' !in part && '+' !in part
    case DirtyDev(count) => IsNumeral(count)
  }

  /** The dotted identifiers of a label. */
  function Identifiers(s: Suffix): seq<string> {
    match s
    case NoSuffix => []
    case OneWord(word) => [word]
    case TwoParts(word, part) => [word, part]
    case DirtyDev(count) => Labels(count, true)
  }

  function SuffixText(s: Suffix): string { Join(Identifiers(s), '.') }

  /** The number the daemon reads in a last part: 0 unless it is a 64-bit numeral. */
  function NumberOf(part: string): nat { if U64Numeral(part) then Value(part) else 0 }

  /** What the daemon makes of a label. */
  function ReadLabel(s: Suffix): Option<Label> {
    match s
    case NoSuffix => None
    case OneWord(word) => Some(Label(word, 0))
    case TwoParts(word, part) => Some(Label(word, NumberOf(part)))
    case DirtyDev(count) => Some(Label("dev." + count, 0))
  }

  lemma {:induction false} PartNumber(part: string)
    requires '+' !in part
    ensures ParseU64(part) == if U64Numeral(part) then Some(Value(part)) else None
  {
  }

  /** A label whose last part follows the last dot. */
  lemma LabelAfterDot(name: string, part: string)
    requires '.' !in part && '+' !in part
    ensures ParseLabel(name + ['.'] + part) == Label(name, NumberOf(part))
  {
    hide LastIndexOf, ParseU64;
    LastSeparator(name, '.', part);
    PartNumber(part);
    var s := name + ['.'] + part;
    assert s[..|name|] == name && s[|name| + 1..] == part;
  }

  lemma DotOccurs(s: string, k: int)
    requires OccursAt(s, ".", k)
    ensures '.' in s
  {
    assert s[k..k + 1][0] == s[k];
  }

  lemma LabelWithoutDot(word: string)
    requires '.' !in word
    ensures ParseLabel(word) == Label(word, 0)
  {
    var dot := LastIndexOf(word, ".");
    if dot != -1 { DotOccurs(word, dot); }
  }

  lemma SuffixShape(s: Suffix)
    requires ValidSuffix(s)
    ensures '+' !in SuffixText(s) && (SuffixText(s) == "" <==> s.NoSuffix?)
    ensures !s.NoSuffix? ==> Split(SuffixText(s), '.') == Identifiers(s)
  {
    hide Split;
    match s
    case NoSuffix =>
    case OneWord(word) => SplitOfJoin([word], '.');
    case TwoParts(word, part) =>
      JoinTwo(word, part);
      SplitOfJoin([word, part], '.');
    case DirtyDev(count) => LabelsJoined(count, true);
  }

  lemma JoinTwo(word: string, part: string)
    ensures Join([word, part], '.') == word + ['.'] + part
  {
    assert [word, part][1..] == [part];
  }

  lemma SuffixRead(s: Suffix)
    requires ValidSuffix(s) && !s.NoSuffix?
    ensures Some(ParseLabel(SuffixText(s))) == ReadLabel(s)
  {
    hide ParseLabel;
    match s
    case OneWord(word) => LabelWithoutDot(word);
    case TwoParts(word, part) =>
      JoinTwo(word, part);
      LabelAfterDot(word, part);
    case DirtyDev(count) =>
      JoinedText(count, true);
      var name := "dev." + count;
      assert "dev." + (count + ".dirty") == name + ['.'] + "dirty";
      assert !IsNumeral("dirty") by { assert !IsDigit("dirty"[0]); }
      LabelAfterDot(name, "dirty");
  }

  /** A version text: numeric segments, a label, build metadata. */
  datatype Release = Release(segments: seq<string>, suffix: Suffix, build: string)

  predicate ValidRelease(r: Release) {
    U64Segments(r.segments) && ValidSuffix(r.suffix) && (r.build == "" || r.build[0] == '+')
  }

  function ReleaseText(r: Release): string { Tailed(Join(r.segments, '.'), SuffixText(r.suffix)) + r.build }

  function Components(r: Release): seq<nat>
    requires ValidRelease(r)
  {
    assert AllNumerals(r.segments);
    Values(r.segments)
  }

  lemma ReleaseCandidate(r: Release)
    requires ValidRelease(r)
    ensures ParseCandidate(ReleaseText(r)) == Some(Candidate(Components(r), ReadLabel(r.suffix)))
  {
    hide ParseCandidate, Join, Values, ParseU64, Value, ParseLabel, SuffixText, ValidSuffix;
    SuffixShape(r.suffix);
    CandidateWritten(r.segments, SuffixText(r.suffix), r.build);
    if !r.suffix.NoSuffix? { SuffixRead(r.suffix); }
    forall i | 0 <= i < |r.segments| ensures ParseU64(r.segments[i]) == Some(NumeralValue(r.segments[i])) {
      NumeralU64(r.segments[i]);
    }
    assert U64s(r.segments) == Components(r);
  }

  lemma ReleaseParsed(r: Release) returns (v: ParsedVersion)
    requires ValidRelease(r)
    ensures Parse(ReleaseText(r)) == Some(v) && v.parts == Components(r) && v.prerelease == Identifiers(r.suffix)
  {
    hide Parse, Join, Values, Value, SuffixText, ValidSuffix, Identifiers, Split;
    var base, tail := Join(r.segments, '.'), SuffixText(r.suffix);
    SuffixShape(r.suffix);
    assert r.suffix.NoSuffix? ==> Identifiers(r.suffix) == [] by { NoIdentifiers(); }
    var dash := if tail == "" then "" else "-" + tail;
    assert AllNumerals(r.segments);
    var w := Written("", r.segments, dash, r.build);
    ParseWritten(w);
    TailedDash(base, tail);
    assert TagText(w) == ReleaseText(r);
    assert tail != "" ==> dash[1..] == tail;
    v := Parse(TagText(w)).value;
  }

  lemma NoIdentifiers()
    ensures Identifiers(NoSuffix) == []
  {
  }

  // ------------------------------------------------------- how each side ranks two labels

  function Head(s: Suffix): string
    requires !s.NoSuffix?
  { if s.DirtyDev? then "dev" else s.word }

  function Second(s: Suffix): string
    requires s.TwoParts? || s.DirtyDev?
  { if s.DirtyDev? then s.count else s.part }

  /**
   * The manifest order said on words and numbers: no label over any, then by
   * word, then two parts over one, then by the second part, then dirty over clean.
   */
  predicate Outranks(a: Suffix, b: Suffix) {
    if a.NoSuffix? then !b.NoSuffix?
    else if b.NoSuffix? then false
    else if Head(a) != Head(b) then Less(Head(b), Head(a))
    else if a.OneWord? then false
    else if b.OneWord? then true
    else if Normal(Second(a)) != Normal(Second(b)) then IdentifierLower(Normal(Second(b)), Normal(Second(a)))
    else a.DirtyDev? && !b.DirtyDev?
  }

  lemma HeadIsWord(s: Suffix)
    requires ValidSuffix(s) && !s.NoSuffix?
    ensures IsWord(Head(s)) && Identifiers(s) != [] && Identifiers(s)[0] == Head(s)
    ensures if s.OneWord? then |Identifiers(s)| == 1
            else Identifiers(s)[1..] == [Second(s)] + (if s.DirtyDev? then ["dirty"] else [])
  {
    assert !IsNumeral("dev") by { assert !IsDigit("dev"[0]); }
  }

  /** `CompareIdentifiers` is positive exactly when the second identifier ranks lower. */
  lemma IdentifiersHigher(x: string, y: string)
    ensures CompareIdentifiers(x, y) > 0 <==> IdentifierLower(Normal(y), Normal(x))
    ensures CompareIdentifiers(x, y) == 0 <==> Normal(x) == Normal(y)
  {
    hide CompareIdentifiers;
    IdentifiersLower(y, x);
    IdentifiersAntisymmetric(x, y);
    IdentifiersZero(x, y);
  }

  lemma SuffixesCompared(a: Suffix, b: Suffix)
    requires ValidSuffix(a) && ValidSuffix(b)
    ensures ComparePrerelease(Identifiers(a), Identifiers(b)) > 0 <==> Outranks(a, b)
  {
    if !a.NoSuffix? && !b.NoSuffix? {
      hide CompareLabels, CompareIdentifiers, Identifiers, ValidSuffix, IdentifierLower, Less, Normal;
      HeadIsWord(a);
      HeadIsWord(b);
      var x, y := Identifiers(a), Identifiers(b);
      LabelsStep(x, y, 0);
      assert x[0..] == x && y[0..] == y;
      IdentifiersHigher(Head(a), Head(b));
      WordsRanked(Head(a), Head(b));
      if Head(a) == Head(b) { RestCompared(a, b); }
    }
  }

  lemma {:induction false} WordsRanked(v: string, w: string)
    requires IsWord(v) && IsWord(w)
    ensures Normal(v) == Normal(w) <==> v == w
    ensures IdentifierLower(Normal(w), Normal(v)) <==> Less(w, v)
  {
  }

  /** With one head word, what follows it decides. */
  lemma RestCompared(a: Suffix, b: Suffix)
    requires ValidSuffix(a) && ValidSuffix(b) && !a.NoSuffix? && !b.NoSuffix? && Head(a) == Head(b)
    ensures CompareLabels(Identifiers(a)[1..], Identifiers(b)[1..]) > 0
       <==> !a.OneWord? && (b.OneWord? || (if Normal(Second(a)) != Normal(Second(b))
                                           then IdentifierLower(Normal(Second(b)), Normal(Second(a)))
                                           else a.DirtyDev? && !b.DirtyDev?))
  {
    hide CompareLabels, CompareIdentifiers, Identifiers, IdentifierLower, Normal, ValidSuffix;
    HeadIsWord(a);
    HeadIsWord(b);
    var x, y := Identifiers(a)[1..], Identifiers(b)[1..];
    assert x[0..] == x && y[0..] == y;
    LabelsStep(x, y, 0);
    if !a.OneWord? && !b.OneWord? {
      IdentifiersHigher(Second(a), Second(b));
      LabelsStep(x, y, 1);
      if a.DirtyDev? && b.DirtyDev? {
        IdentifiersHigher("dirty", "dirty");
        LabelsStep(x, y, 2);
      }
    }
  }

  /** What the daemon decides on equal bases. */
  predicate DaemonPrefers(a: Suffix, b: Suffix) {
    var c, r := ReadLabel(a), ReadLabel(b);
    r.Some? && (c.None? || LabelGreater(c.value, r.value))
  }

  /** A word that continues `dev` below the dot sorts between `dev` and `dev.N`. */
  predicate Squeezed(word: string) { |word| > 3 && word[..3] == "dev" && word[3] < '.' }

  /** Whether the second parts of two labels with one word are ranked alike. */
  predicate PartsFit(x: string, y: string) {
    if U64Numeral(x) then U64Numeral(y) || Value(x) == 0
    else if U64Numeral(y) then false
    else if IsNumeral(x) && IsNumeral(y) then Value(x) <= Value(y)
    else if IsNumeral(x) || IsNumeral(y) then IsNumeral(x)
    else !Less(y, x)
  }

  /** The second part of a clean development label does not exceed the commits of a dirty one. */
  predicate NotAbove(s: Suffix, count: string)
    requires s.OneWord? || s.TwoParts?
    requires IsNumeral(count)
  { s.OneWord? || (IsNumeral(s.part) && Value(s.part) <= Value(count)) }

  /**
   * Exactly when the daemon ranks two labels on one base as the manifests do. It
   * takes an unnumbered label for number 0, a part it cannot read as well, and a
   * dirty build for a longer word.
   */
  predicate Fits(a: Suffix, b: Suffix)
    requires ValidSuffix(a) && ValidSuffix(b)
  {
    if a.NoSuffix? || b.NoSuffix? then true
    else if a.DirtyDev? && b.DirtyDev? then Less(b.count, a.count) <==> Value(b.count) < Value(a.count)
    else if a.DirtyDev? then if b.word == "dev" then NotAbove(b, a.count) else !Squeezed(b.word)
    else if b.DirtyDev? then if a.word == "dev" then NotAbove(a, b.count) else !Squeezed(a.word)
    else if a.word != b.word || a.OneWord? then true
    else if b.OneWord? then NumberOf(a.part) > 0
    else PartsFit(a.part, b.part)
  }

  lemma PartsFitMeaning(x: string, y: string)
    ensures PartsFit(x, y)
       <==> (NumberOf(x) > NumberOf(y) <==> Normal(x) != Normal(y) && IdentifierLower(Normal(y), Normal(x)))
  {
    hide Value;
    LessIrreflexive(x);
  }

  lemma WordedFit(a: Suffix, b: Suffix)
    requires ValidSuffix(a) && ValidSuffix(b)
    requires (a.OneWord? || a.TwoParts?) && (b.OneWord? || b.TwoParts?)
    ensures Fits(a, b) <==> (DaemonPrefers(a, b) <==> Outranks(a, b))
  {
    hide Less, PartsFit, NumberOf, Normal, IdentifierLower;
    LessIrreflexive(a.word);
    if a.TwoParts? && b.TwoParts? { PartsFitMeaning(a.part, b.part); }
  }

  /** A word against the name the daemon reads in a dirty build. */
  lemma {:induction false} WordAgainstDirty(word: string, count: string)
    requires IsWord(word) && IsNumeral(count)
    ensures word != "dev." + count
    ensures word == "dev" ==> Less(word, "dev." + count) && !Less("dev." + count, word)
    ensures word != "dev" ==> (Less(word, "dev." + count) <==> Less(word, "dev") || Squeezed(word))
    ensures word != "dev" ==> (Less("dev." + count, word) <==> Less("dev", word) && !Squeezed(word))
    ensures Squeezed(word) ==> Less("dev", word) && !Less(word, "dev")
  {
    hide Less;
    var name := "dev." + count;
    assert name[3] == '.';
    assert word != name;
    LessTotal(word, name);
    if Less(word, name) { LessAsymmetric(word, name); }
    if word == "dev" {
      assert name[..3] == "dev";
      PrefixLess("dev", name);
    } else if |word| > 3 && word[..3] == "dev" {
      var rest := word[3..];
      assert word == "dev" + rest && name == "dev" + ("." + count) && "dev" + "" == "dev";
      PrefixLess("dev", word);
      LessAsymmetric("dev", word);
      LessAfterPrefix("dev", rest, "." + count);
      assert word[3] in word && rest[0] == word[3];
      DotDecides(rest, count);
    } else {
      UnrelatedToDev(word, count);
      LessTotal(word, "dev");
      if Less(word, "dev") { LessAsymmetric(word, "dev"); }
    }
  }

  lemma {:induction false} PrefixLess(a: string, b: string)
    requires |a| < |b| && b[..|a|] == a
    ensures Less(a, b)
  {
    if a != "" {
      assert b[0] == b[..|a|][0];
      assert b[1..][..|a[1..]|] == b[..|a|][1..];
      PrefixLess(a[1..], b[1..]);
    }
  }

  lemma {:induction false} DotDecides(rest: string, count: string)
    requires rest != "" && rest[0] != '.'
    ensures Less(rest, "." + count) <==> rest[0] < '.'
  {
    assert ("." + count)[0] == '.';
  }

  /** A word that neither continues `dev` nor equals it is on the same side of `dev` and of `dev.N`. */
  lemma {:induction false} UnrelatedToDev(word: string, count: string)
    requires word != "dev" && !(|word| > 3 && word[..3] == "dev")
    ensures Less(word, "dev." + count) <==> Less(word, "dev")
  {
    if |word| >= 3 {
      var front, rest := word[..3], word[3..];
      assert word == front + rest && "dev." + count == "dev" + ("." + count) && "dev" == "dev" + "";
      assert front != "dev";
      LessBeforeSuffix(front, "dev", rest, "." + count);
      LessBeforeSuffix(front, "dev", rest, "");
    } else {
      ShortWord(word, "dev", "." + count);
      assert "dev" + ("." + count) == "dev." + count;
    }
  }

  /** A text shorter than `b` compares with `b` as with anything that continues `b`. */
  lemma {:induction false} ShortWord(a: string, b: string, more: string)
    requires |a| < |b|
    ensures Less(a, b + more) <==> Less(a, b)
  {
    assert (b + more)[0] == b[0] && (b + more)[1..] == b[1..] + more;
    if a != "" { ShortWord(a[1..], b[1..], more); }
  }

  lemma DirtyFit(a: Suffix, b: Suffix)
    requires ValidSuffix(a) && ValidSuffix(b) && !a.NoSuffix? && !b.NoSuffix? && (a.DirtyDev? || b.DirtyDev?)
    ensures Fits(a, b) <==> (DaemonPrefers(a, b) <==> Outranks(a, b))
  {
    hide Less, NumberOf, Squeezed, IsWord;
    if a.DirtyDev? && b.DirtyDev? {
      hide Value;
      LessAfterPrefix("dev.", b.count, a.count);
      LessIrreflexive("dev." + a.count);
    } else if a.DirtyDev? {
      hide Value;
      WordAgainstDirty(b.word, a.count);
    } else {
      hide Value;
      WordAgainstDirty(a.word, b.count);
    }
  }

  lemma FitsMeaning(a: Suffix, b: Suffix)
    requires ValidSuffix(a) && ValidSuffix(b)
    ensures Fits(a, b) <==> (DaemonPrefers(a, b) <==> Outranks(a, b))
  {
    if !a.NoSuffix? && !b.NoSuffix? {
      hide Fits, DaemonPrefers, Outranks, ValidSuffix;
      if a.DirtyDev? || b.DirtyDev? { DirtyFit(a, b); } else { WordedFit(a, b); }
    }
  }

  // ------------------------------------------------- agreement with the manifest order

  /**
   * On bases of any length the daemon follows the manifests except that of two
   * bases equal up to trailing zeros it ranks the longer one higher.
   */
  lemma {:induction false} BasesCompared(a: seq<nat>, b: seq<nat>)
    ensures VecGreater(a, b) <==> CompareParts(a, b) > 0 || (CompareParts(a, b) == 0 && |a| > |b|)
    decreases |a| + |b|
  {
    if a != [] || b != [] {
      if a != [] { assert Rest(a) == a[1..]; }
      if b != [] { assert Rest(b) == b[1..]; }
      BasesCompared(Rest(a), Rest(b));
    }
  }

  /** The same components, one list perhaps written with more trailing zeros. */
  ghost predicate SameBase(x: Release, y: Release)
    requires ValidRelease(x) && ValidRelease(y)
  { forall i: nat :: Part(Components(x), i) == Part(Components(y), i) }

  /** Daemon and manifests say the same about whether `x` is newer than `y`. */
  predicate SameVerdict(x: string, y: string) {
    && Parse(x).Some? && Parse(y).Some?
    && (IsNewer(x, y) <==> Compare(Parse(x).value, Parse(y).value) > 0)
  }

  /**
   * Over all versions the project writes, with any numbers of components:
   * daemon and manifests agree exactly when the bases differ, or of two equal
   * bases the first is longer and has the higher label, or is shorter and has
   * not, or the bases have one length and the labels fit.
   */
  lemma DaemonAgreesExactly(x: Release, y: Release)
    requires ValidRelease(x) && ValidRelease(y)
    ensures SameVerdict(ReleaseText(x), ReleaseText(y))
       <==> || !SameBase(x, y)
            || (if |x.segments| > |y.segments| then Outranks(x.suffix, y.suffix)
                else if |x.segments| < |y.segments| then !Outranks(x.suffix, y.suffix)
                else Fits(x.suffix, y.suffix))
  {
    hide ParseCandidate, Parse, ReleaseText, Components, VecGreater, CompareParts, ComparePrerelease, LabelGreater;
    hide Outranks, Fits, ReadLabel, Identifiers, ValidSuffix, U64Segments;
    ReleaseCandidate(x);
    ReleaseCandidate(y);
    var v := ReleaseParsed(x);
    var w := ReleaseParsed(y);
    ComponentsCompared(x, y);
    SuffixesCompared(x.suffix, y.suffix);
    FitsMeaning(x.suffix, y.suffix);
  }

  lemma ComponentsCompared(x: Release, y: Release)
    requires ValidRelease(x) && ValidRelease(y)
    ensures CompareParts(Components(x), Components(y)) == 0 <==> SameBase(x, y)
    ensures VecGreater(Components(x), Components(y))
       <==> CompareParts(Components(x), Components(y)) > 0 || (SameBase(x, y) && |x.segments| > |y.segments|)
    ensures Components(x) == Components(y) <==> SameBase(x, y) && |x.segments| == |y.segments|
  {
    hide VecGreater, CompareParts;
    var a, b := Components(x), Components(y);
    BasesCompared(a, b);
    PartsZero(a, b);
    if SameBase(x, y) && |a| == |b| {
      forall i | 0 <= i < |a| ensures a[i] == b[i] { assert Part(a, i) == Part(b, i); }
    }
  }

  /** A label that is none or a word with a 64-bit number. */
  predicate Numbered(s: Suffix) { s.NoSuffix? || (s.TwoParts? && U64Numeral(s.part)) }

  /** So on releases with equally many components and numbered labels they always agree. */
  lemma DaemonAgreesWithManifests(x: Release, y: Release)
    requires ValidRelease(x) && ValidRelease(y) && |x.segments| == |y.segments|
    requires Numbered(x.suffix) && Numbered(y.suffix)
    ensures SameVerdict(ReleaseText(x), ReleaseText(y))
  {
    hide SameVerdict, ReleaseText;
    DaemonAgreesExactly(x, y);
  }

  // -------------------------------------------------------------------- where they part

  lemma SmallSegments()
    ensures U64Numeral("1") && U64Numeral("0") && Value("1") == 1 && Value("0") == 0
    ensures Join(["1", "0", "0"], '.') == "1.0.0" && Join(["1", "0"], '.') == "1.0"
    ensures IsWord("beta")
  {
    assert "1"[..0] == "" && "0"[..0] == "";
    assert ["1", "0", "0"][1..] == ["0", "0"] && ["0", "0"][1..] == ["0"] && ["1", "0"][1..] == ["0"];
    assert Join(["0"], '.') == "0";
    assert Join(["0", "0"], '.') == "0" + ['.'] + "0";
    assert !IsDigit("beta"[0]);
  }

  const ONE_LONG: Release := Release(["1", "0", "0"], NoSuffix, "")
  const ONE_SHORT: Release := Release(["1", "0"], NoSuffix, "")
  const ONE_BETA: Release := Release(["1", "0", "0"], TwoParts("beta", "1"), "")

  lemma OneTexts()
    ensures ValidRelease(ONE_LONG) && ValidRelease(ONE_SHORT) && ValidRelease(ONE_BETA)
    ensures ReleaseText(ONE_LONG) == "1.0.0" && ReleaseText(ONE_SHORT) == "1.0" && ReleaseText(ONE_BETA) == "1.0.0-beta.1"
    ensures Components(ONE_LONG) == [1, 0, 0] && Components(ONE_SHORT) == [1, 0] && Components(ONE_BETA) == [1, 0, 0]
  {
    hide Join, Value;
    SmallSegments();
    JoinTwo("beta", "1");
    assert Join([], '.') == "" by { JoinNothing(); }
    assert "beta" + ['.'] + "1" == "beta.1" && "1.0.0" + "-" + "beta.1" + "" == "1.0.0-beta.1";
    assert "1.0.0" + "" == "1.0.0" && "1.0" + "" == "1.0";
  }

  lemma JoinNothing()
    ensures Join([], '.') == ""
  {
  }

  /** A release written with more components is newer to the daemon and equal in the manifests. */
  lemma ShortBaseDisagrees()
    ensures IsNewer("1.0.0", "1.0")
    ensures Parse("1.0.0").Some? && Parse("1.0").Some? && Compare(Parse("1.0.0").value, Parse("1.0").value) == 0
  {
    hide ParseCandidate, Parse, VecGreater, CompareParts, ReleaseText, Components;
    OneTexts();
    ReleaseCandidate(ONE_LONG);
    ReleaseCandidate(ONE_SHORT);
    var v := ReleaseParsed(ONE_LONG);
    var w := ReleaseParsed(ONE_SHORT);
    PartsZero([1, 0, 0], [1, 0]);
    BasesCompared([1, 0, 0], [1, 0]);
  }

  /** A release is not newer to the daemon than a pre-release of it written with more components. */
  lemma ShortReleaseDisagrees()
    ensures !IsNewer("1.0", "1.0.0-beta.1")
    ensures Parse("1.0").Some? && Parse("1.0.0-beta.1").Some?
    ensures Compare(Parse("1.0").value, Parse("1.0.0-beta.1").value) > 0
  {
    hide ParseCandidate, Parse, VecGreater, CompareParts, ReleaseText, Components;
    OneTexts();
    ReleaseCandidate(ONE_SHORT);
    ReleaseCandidate(ONE_BETA);
    var v := ReleaseParsed(ONE_SHORT);
    var w := ReleaseParsed(ONE_BETA);
    PartsZero([1, 0], [1, 0, 0]);
    BasesCompared([1, 0], [1, 0, 0]);
  }

  /** On every base the daemon takes number 0 and no number for the same label. */
  lemma ZeroNumberDisagrees(segments: seq<string>)
    requires U64Segments(segments)
    ensures var x, y := ReleaseText(Release(segments, TwoParts("beta", "0"), "")), ReleaseText(Release(segments, OneWord("beta"), ""));
            && !IsNewer(x, y)
            && Parse(x).Some? && Parse(y).Some? && Compare(Parse(x).value, Parse(y).value) > 0
  {
    hide ParseCandidate, Parse, ReleaseText, Components, VecGreater, CompareParts, ComparePrerelease, Identifiers, Less;
    SmallSegments();
    var a, b := Release(segments, TwoParts("beta", "0"), ""), Release(segments, OneWord("beta"), "");
    ReleaseCandidate(a);
    ReleaseCandidate(b);
    var v := ReleaseParsed(a);
    var w := ReleaseParsed(b);
    ComponentsOf(a, b);
    ComponentsCompared(a, b);
    SuffixesCompared(a.suffix, b.suffix);
    LessIrreflexive("beta");
  }

  lemma ComponentsOf(x: Release, y: Release)
    requires ValidRelease(x) && ValidRelease(y) && x.segments == y.segments
    ensures Components(x) == Components(y)
  {
  }

  // ------------------------------------------------------------------ development builds

  /** A development build of the daemon: the release it leads to, commits, hash, dirtiness. */
  datatype Build = Build(base: Base, count: string, hash: string, dirty: bool)

  predicate ValidBuild(d: Build) {
    U64Numeral(d.base.major) && U64Numeral(d.base.minor) && U64Numeral(d.base.patch) && U64Numeral(d.count)
  }

  function BuildText(d: Build): string { DevVersion(d.base, d.count, d.hash, d.dirty) }

  function BuildRelease(d: Build): Release {
    Release([d.base.major, d.base.minor, d.base.patch],
            if d.dirty then DirtyDev(d.count) else TwoParts("dev", d.count), "+" + ("g" + d.hash))
  }

  lemma BuildWritten(d: Build)
    requires ValidBuild(d)
    ensures ValidRelease(BuildRelease(d)) && ReleaseText(BuildRelease(d)) == BuildText(d)
    ensures Components(BuildRelease(d)) == BaseParts(d.base)
  {
    hide Join, Value, BaseText;
    var r := BuildRelease(d);
    NumeralU64(d.count);
    assert !IsNumeral("dev") by { assert !IsDigit("dev"[0]); }
    assert Join(r.segments, '.') == BaseText(d.base) by { SplitBase(d.base); }
    JoinedText(d.count, d.dirty);
    DevLayout(BaseText(d.base), d.count, d.hash, d.dirty);
    assert Identifiers(r.suffix) == Labels(d.count, d.dirty);
    assert Values(r.segments) == BaseParts(d.base);
  }

  /**
   * Two builds leading to one release: the daemon ranks every dirty one above
   * every clean one, and two dirty ones by the text of their commit counts.
   */
  predicate CountsFit(a: Build, b: Build)
    requires IsNumeral(a.count) && IsNumeral(b.count)
  {
    if a.dirty && b.dirty then Less(b.count, a.count) <==> Value(b.count) < Value(a.count)
    else if a.dirty then Value(b.count) <= Value(a.count)
    else if b.dirty then Value(a.count) <= Value(b.count)
    else true
  }

  /** Over all pairs of development builds, daemon and manifests agree exactly when the bases differ or the counts fit. */
  lemma BuildsAgreeExactly(a: Build, b: Build)
    requires ValidBuild(a) && ValidBuild(b)
    ensures SameVerdict(BuildText(a), BuildText(b)) <==> BaseParts(a.base) != BaseParts(b.base) || CountsFit(a, b)
  {
    hide SameVerdict, ReleaseText, BuildText, Components, BaseParts, Value, Less;
    BuildWritten(a);
    BuildWritten(b);
    var x, y := BuildRelease(a), BuildRelease(b);
    DaemonAgreesExactly(x, y);
    ComponentsCompared(x, y);
    assert Fits(x.suffix, y.suffix) <==> CountsFit(a, b);
  }

  /** A dirty build five commits on is newer to the daemon than a clean one six commits on. */
  lemma DirtyBuildDisagrees(base: Base, hash: string)
    requires U64Numeral(base.major) && U64Numeral(base.minor) && U64Numeral(base.patch)
    ensures var x, y := BuildText(Build(base, "5", hash, true)), BuildText(Build(base, "6", hash, false));
            && IsNewer(x, y)
            && Parse(x).Some? && Parse(y).Some? && Compare(Parse(x).value, Parse(y).value) < 0
  {
    hide Parse, IsNewer, DevVersion, Compare;
    var a, b := Build(base, "5", hash, true), Build(base, "6", hash, false);
    assert U64Numeral("5") && U64Numeral("6") && Value("5") == 5 && Value("6") == 6 by {
      assert "5"[..0] == "" && "6"[..0] == "";
    }
    BuildsAgreeExactly(a, b);
    MoreCommitsRankHigher(base, "5", hash, true, "6", hash, false);
  }
}
