// Release versions as the manifest generator reads them: the tag parser and
// the comparator in the style of section 11 of Semantic Versioning 2.0.0.
// Numeric components are natural numbers of any size.
module Versions {
  import opened Text

  datatype ParsedVersion = ParsedVersion(version: string, parts: seq<nat>, prerelease: seq<string>)

  // ------------------------------------------------------------------------ parsing

  /** `tag.replace(/^(?:edge-)?v?/, "")`. */
  function StripTagPrefix(tag: string): string {
    var s := if StartsWith(tag, "edge-") then tag[5..] else tag;
    if StartsWith(s, "v") then s[1..] else s
  }

  predicate AllNumerals(segments: seq<string>) {
    forall i :: 0 <= i < |segments| ==> IsNumeral(segments[i])
  }

  function Values(segments: seq<string>): (r: seq<nat>)
    requires AllNumerals(segments)
    ensures |r| == |segments|
    ensures forall i :: 0 <= i < |segments| ==> r[i] == NumeralValue(segments[i])
  {
    if segments == [] then []
    else
      var front := segments[..|segments| - 1];
      assert IsNumeral(segments[|segments| - 1]) && forall i :: 0 <= i < |front| ==> front[i] == segments[i];
      Values(front) + [NumeralValue(segments[|segments| - 1])]
  }

  /** The version a stripped tag text denotes, `None` when its core is not dotted-numeric. */
  function ParseText(noBuild: string): Option<ParsedVersion> {
    var head := Before(noBuild, '-');
    var tail := if '-' in noBuild then noBuild[IndexOf(noBuild, '-') + 1..] else "";
    var segments := Split(head, '.');
    if AllNumerals(segments)
    then Some(ParsedVersion(noBuild, Values(segments), if tail == "" then [] else Split(tail, '.')))
    else None
  }

  function Parse(tag: string): Option<ParsedVersion> {
    var stripped := StripTagPrefix(tag);
    if stripped == "" then None else ParseText(Before(stripped, '+'))
  }

  method ParseSegments(segments: seq<string>) returns (parts: Option<seq<nat>>)
    ensures parts == if AllNumerals(segments) then Some(Values(segments)) else None
  {
    hide Value, IsNumeral;
    var done: seq<nat> := [];
    var i := 0;
    while i < |segments|
      invariant 0 <= i <= |segments|
      invariant AllNumerals(segments[..i]) && done == Values(segments[..i])
    {
      if !IsNumeral(segments[i]) { return None; }
      assert segments[..i + 1][..i] == segments[..i];
      done := done + [NumeralValue(segments[i])];
      i := i + 1;
    }
    assert segments[..i] == segments;
    parts := Some(done);
  }

  /** `parseInt(s, 10)` of a numeral. */
  function NumeralValue(s: string): nat
    requires IsNumeral(s)
  { Value(s) }

  method ParseVersion(tag: string) returns (r: Option<ParsedVersion>)
    ensures r == Parse(tag)
  {
    hide Values, AllNumerals, StripTagPrefix, Split;
    var stripped := StripTagPrefix(tag);
    if stripped == "" { return None; }
    var noBuild := Before(stripped, '+');
    var dashAt := IndexOf(noBuild, '-');
    var head := if dashAt == -1 then noBuild else noBuild[..dashAt];
    var tail := if dashAt == -1 then "" else noBuild[dashAt + 1..];
    var parts := ParseSegments(Split(head, '.'));
    if parts.None? { return None; }
    r := Some(ParsedVersion(noBuild, parts.value, if tail == "" then [] else Split(tail, '.')));
  }

  /** A parsed version text starts with a digit and has no build suffix. */
  lemma ParsedTextShape(t: string)
    requires ParseText(t).Some?
    ensures t != "" && IsDigit(t[0])
  {
    var head := Before(t, '-');
    var segments := Split(head, '.');
    assert IsNumeral(segments[0]);
    assert Join(segments, '.') == head;
    assert head[0] == segments[0][0];
    assert t[0] == head[0];
  }

  lemma StripLeavesDigits(t: string)
    requires t != "" && IsDigit(t[0])
    ensures StripTagPrefix(t) == t
  {
    assert t[..1] == [t[0]];
    assert |t| >= 5 ==> t[..5][0] == t[0];
  }

  // ------------------------------------------- the tags that parse, and what they mean

  /** The written form of a tag: an optional prefix, numeric segments, a dash and its tail, build metadata. */
  datatype Written = Written(prefix: string, segments: seq<string>, dash: string, build: string)

  predicate WellWritten(w: Written) {
    && (w.prefix == "" || w.prefix == "v" || w.prefix == "edge-" || w.prefix == "edge-v")
    && w.segments != [] && AllNumerals(w.segments)
    && (w.dash == "" || w.dash[0] == '-') && '+' !in w.dash
    && (w.build == "" || w.build[0] == '+')
  }

  function BareText(w: Written): string { Join(w.segments, '.') + w.dash }

  function TagText(w: Written): string { w.prefix + (BareText(w) + w.build) }

  lemma SegmentsLack(segments: seq<string>, c: char)
    requires AllNumerals(segments) && !IsDigit(c)
    ensures forall p :: p in segments ==> c !in p
  {
  }

  lemma BuildDropped(t: string, build: string)
    requires '+' !in t && (build == "" || build[0] == '+')
    ensures Before(t + build, '+') == t
  {
    if build == "" {
      assert t + build == t;
    } else {
      assert t + build == t + ['+'] + build[1..];
      FirstIndexUnique(t, build[1..], '+');
      assert (t + build)[..|t|] == t;
    }
  }

  lemma {:induction false} DashSplitsOff(base: string, dash: string)
    requires '-' !in base && (dash == "" || dash[0] == '-')
    ensures Before(base + dash, '-') == base
    ensures '-' in base + dash <==> dash != ""
    ensures dash != "" ==> (base + dash)[IndexOf(base + dash, '-') + 1..] == dash[1..]
  {
    if dash == "" {
      assert base + dash == base;
    } else {
      assert base + dash == base + ['-'] + dash[1..];
      FirstIndexUnique(base, dash[1..], '-');
      assert (base + dash)[..|base|] == base;
    }
  }

  lemma PrefixStripped(prefix: string, t: string)
    requires prefix == "" || prefix == "v" || prefix == "edge-" || prefix == "edge-v"
    requires t != "" && IsDigit(t[0])
    ensures StripTagPrefix(prefix + t) == t
  {
    StripLeavesDigits(t);
    if prefix == "" {
      assert prefix + t == t;
    } else if prefix == "v" {
      assert (prefix + t)[0] == 'v' && (prefix + t)[1..] == t;
    } else {
      assert (prefix + t)[..5] == "edge-" && (prefix + t)[5..] == prefix[5..] + t;
    }
  }

  /** Every well-written tag parses, to the values of its segments and the identifiers after its dash. */
  lemma ParseWritten(w: Written)
    requires WellWritten(w)
    ensures Parse(TagText(w))
         == Some(ParsedVersion(BareText(w), Values(w.segments), if |w.dash| <= 1 then [] else Split(w.dash[1..], '.')))
  {
    hide Values, Split, Before, IndexOf;
    var base := Join(w.segments, '.');
    SegmentsLack(w.segments, '-');
    SegmentsLack(w.segments, '+');
    SegmentsLack(w.segments, '.');
    JoinLacks(w.segments, '.', '-');
    JoinLacks(w.segments, '.', '+');
    SplitOfJoin(w.segments, '.');
    assert IsNumeral(w.segments[0]) && base[0] == w.segments[0][0];
    PrefixStripped(w.prefix, BareText(w) + w.build);
    BuildDropped(BareText(w), w.build);
    DashSplitsOff(base, w.dash);
  }

  /** Nothing else parses. */
  lemma ParsedWasWritten(tag: string) returns (w: Written)
    requires Parse(tag).Some?
    ensures WellWritten(w) && TagText(w) == tag
  {
    hide ParseText, Before, StripTagPrefix, Split, Join, AllNumerals;
    var s := StripTagPrefix(tag);
    var t := Before(s, '+');
    BeforeHasNone(s, '+');
    BeforePrefix(s, '+');
    PrefixTaken(tag);
    var segments, dash := ParsedTextWritten(t);
    w := Written(tag[..|tag| - |s|], segments, dash, s[|t|..]);
    assert BareText(w) == t;
  }

  /** A text that parses is its numeric segments and what follows from the dash on. */
  lemma ParsedTextWritten(t: string) returns (segments: seq<string>, dash: string)
    requires ParseText(t).Some?
    ensures segments != [] && AllNumerals(segments) && t == Join(segments, '.') + dash
    ensures dash == "" || dash[0] == '-'
  {
    hide Values, Before, Join, IsNumeral;
    var base := Before(t, '-');
    BeforePrefix(t, '-');
    segments, dash := Split(base, '.'), t[|base|..];
  }

  lemma BeforePrefix(s: string, c: char)
    ensures |Before(s, c)| <= |s| && s == Before(s, c) + s[|Before(s, c)|..]
    ensures s[|Before(s, c)|..] == "" || s[|Before(s, c)|] == c
  {
  }

  lemma PrefixTaken(tag: string)
    ensures var s := StripTagPrefix(tag);
            && |s| <= |tag| && tag == tag[..|tag| - |s|] + s
            && tag[..|tag| - |s|] in ["", "v", "edge-", "edge-v"]
  {
    if StartsWith(tag, "edge-") {
      var s := tag[5..];
      if StartsWith(s, "v") { assert tag[..6] == "edge-v"; }
    }
  }

  lemma BeforeHasNone(s: string, c: char)
    ensures c !in Before(s, c)
  {
  }

  /** Parsing the version string a tag was parsed to gives the same version again. */
  lemma ReparseExact(tag: string)
    requires Parse(tag).Some?
    ensures Parse(Parse(tag).value.version) == Parse(tag)
  {
    var t := Before(StripTagPrefix(tag), '+');
    ParsedTextShape(t);
    StripLeavesDigits(t);
    BeforeHasNone(StripTagPrefix(tag), '+');
    assert Before(t, '+') == t;
  }

  // --------------------------------------------------------------------- comparison

  /** A component, zero beyond the end. */
  function Part(parts: seq<nat>, i: nat): nat { if i < |parts| then parts[i] else 0 }

  function Rest<T>(xs: seq<T>): (r: seq<T>)
    ensures |r| == if xs == [] then 0 else |xs| - 1
    ensures forall i :: 0 <= i < |r| ==> r[i] == xs[i + 1]
  {
    if xs == [] then [] else xs[1..]
  }

  /** Component by component, the shorter list padded with zeros. */
  function CompareParts(a: seq<nat>, b: seq<nat>): int
    decreases |a| + |b|
  {
    if a == [] && b == [] then 0
    else if Part(a, 0) != Part(b, 0) then Part(a, 0) - Part(b, 0)
    else CompareParts(Rest(a), Rest(b))
  }

  /** One pre-release identifier against another. */
  function CompareIdentifiers(x: string, y: string): int {
    if IsNumeral(x) && !IsNumeral(y) then -1
    else if !IsNumeral(x) && IsNumeral(y) then 1
    else if IsNumeral(x) then Value(x) - Value(y)
    else if x == y then 0
    else if Less(x, y) then -1 else 1
  }

  /** Identifier lists: the first difference decides, then the longer list is higher. */
  function CompareLabels(a: seq<string>, b: seq<string>): int
    decreases |a| + |b|
  {
    if a == [] && b == [] then 0
    else if a == [] then -1
    else if b == [] then 1
    else if CompareIdentifiers(a[0], b[0]) != 0 then CompareIdentifiers(a[0], b[0])
    else CompareLabels(a[1..], b[1..])
  }

  /** Any pre-release ranks below the release it leads to. */
  function ComparePrerelease(a: seq<string>, b: seq<string>): int {
    if a == [] && b == [] then 0
    else if a == [] then 1
    else if b == [] then -1
    else CompareLabels(a, b)
  }

  function Compare(a: ParsedVersion, b: ParsedVersion): int {
    var c := CompareParts(a.parts, b.parts);
    if c != 0 then c else ComparePrerelease(a.prerelease, b.prerelease)
  }

  /** The components from position `i` on. */
  function From(parts: seq<nat>, i: nat): seq<nat> { if i < |parts| then parts[i..] else [] }

  lemma PartsFrom(a: seq<nat>, b: seq<nat>)
    ensures From(a, 0) == a && From(b, 0) == b
  {
  }

  /** What one pass of the loop over the components decides. */
  lemma PartsStep(a: seq<nat>, b: seq<nat>, i: nat)
    ensures CompareParts(From(a, i), From(b, i))
         == if i >= |a| && i >= |b| then 0
            else if Part(a, i) != Part(b, i) then Part(a, i) - Part(b, i)
            else CompareParts(From(a, i + 1), From(b, i + 1))
  {
    assert Rest(From(a, i)) == From(a, i + 1) && Rest(From(b, i)) == From(b, i + 1);
  }

  /** What one pass of the loop over the pre-release identifiers decides. */
  lemma LabelsStep(a: seq<string>, b: seq<string>, i: nat)
    requires i <= |a| && i <= |b|
    ensures CompareLabels(a[i..], b[i..])
         == if i == |a| && i == |b| then 0
            else if i == |a| then -1
            else if i == |b| then 1
            else if CompareIdentifiers(a[i], b[i]) != 0 then CompareIdentifiers(a[i], b[i])
            else CompareLabels(a[i + 1..], b[i + 1..])
  {
    hide CompareIdentifiers;
    if i < |a| { assert a[i..][1..] == a[i + 1..]; }
    if i < |b| { assert b[i..][1..] == b[i + 1..]; }
  }

  method CompareVersion(a: ParsedVersion, b: ParsedVersion) returns (r: int)
    ensures r == Compare(a, b)
  {
    hide CompareParts, CompareLabels, From, Value, Less;
    PartsFrom(a.parts, b.parts);
    var len := if |a.parts| > |b.parts| then |a.parts| else |b.parts|;
    var i := 0;
    while i < len
      invariant 0 <= i <= len
      invariant CompareParts(a.parts, b.parts) == CompareParts(From(a.parts, i), From(b.parts, i))
    {
      PartsStep(a.parts, b.parts, i);
      var ai: int, bi: int := Part(a.parts, i), Part(b.parts, i);
      if ai != bi { return ai - bi; }
      i := i + 1;
    }
    PartsStep(a.parts, b.parts, i);
    if |a.prerelease| == 0 && |b.prerelease| == 0 { return 0; }
    if |a.prerelease| == 0 { return 1; }
    if |b.prerelease| == 0 { return -1; }
    i := 0;
    var top := if |a.prerelease| > |b.prerelease| then |a.prerelease| else |b.prerelease|;
    while i < top
      invariant 0 <= i <= |a.prerelease| && i <= |b.prerelease| && i <= top
      invariant CompareLabels(a.prerelease, b.prerelease) == CompareLabels(a.prerelease[i..], b.prerelease[i..])
    {
      LabelsStep(a.prerelease, b.prerelease, i);
      if i >= |a.prerelease| { return -1; }
      if i >= |b.prerelease| { return 1; }
      var ai, bi := a.prerelease[i], b.prerelease[i];
      var ar, br := IsNumeral(ai), IsNumeral(bi);
      if ar && !br { return -1; }
      if !ar && br { return 1; }
      if ar && br {
        var diff := Value(ai) - Value(bi);
        if diff != 0 { return diff; }
      } else if ai != bi {
        return if Less(ai, bi) then -1 else 1;
      }
      i := i + 1;
    }
    LabelsStep(a.prerelease, b.prerelease, i);
    r := 0;
  }

  // ------------------------------------------------------------- a total preorder

  lemma {:induction false} PartsAntisymmetric(a: seq<nat>, b: seq<nat>)
    ensures CompareParts(a, b) == -CompareParts(b, a)
    decreases |a| + |b|
  {
    if a != [] || b != [] { PartsAntisymmetric(Rest(a), Rest(b)); }
  }

  lemma {:induction false} PartsTransitive(a: seq<nat>, b: seq<nat>, c: seq<nat>)
    requires CompareParts(a, b) <= 0 && CompareParts(b, c) <= 0
    ensures CompareParts(a, c) <= 0
    ensures CompareParts(a, c) == 0 ==> CompareParts(a, b) == 0 && CompareParts(b, c) == 0
    decreases |a| + |b| + |c|
  {
    if (a != [] || b != [] || c != []) && Part(a, 0) == Part(b, 0) == Part(c, 0) {
      PartsRest(a, b);
      PartsRest(b, c);
      PartsRest(a, c);
      PartsTransitive(Rest(a), Rest(b), Rest(c));
    }
  }

  lemma {:induction false} PartsRest(a: seq<nat>, b: seq<nat>)
    requires Part(a, 0) == Part(b, 0)
    ensures CompareParts(a, b) == CompareParts(Rest(a), Rest(b))
  {
  }

  /** Equal under comparison means equal component by component, padding included. */
  lemma {:induction false} PartsZero(a: seq<nat>, b: seq<nat>)
    ensures CompareParts(a, b) == 0 <==> forall i: nat :: Part(a, i) == Part(b, i)
    decreases |a| + |b|
  {
    if a != [] || b != [] {
      PartsZero(Rest(a), Rest(b));
      assert forall i: nat :: Part(Rest(a), i) == Part(a, i + 1) && Part(Rest(b), i) == Part(b, i + 1);
      if forall i: nat :: Part(Rest(a), i) == Part(Rest(b), i) {
        forall i: nat | i > 0 ensures Part(a, i) == Part(b, i) {
          assert Part(Rest(a), i - 1) == Part(Rest(b), i - 1);
        }
      }
    }
  }

  lemma IdentifiersAntisymmetric(x: string, y: string)
    ensures CompareIdentifiers(x, y) == -CompareIdentifiers(y, x)
  {
    LessTotal(x, y);
    if Less(x, y) { LessAsymmetric(x, y); }
  }

  lemma IdentifiersTransitive(x: string, y: string, z: string)
    requires CompareIdentifiers(x, y) <= 0 && CompareIdentifiers(y, z) <= 0
    ensures CompareIdentifiers(x, z) <= 0
    ensures CompareIdentifiers(x, z) == 0 ==> CompareIdentifiers(x, y) == 0 && CompareIdentifiers(y, z) == 0
  {
    if Less(x, y) && Less(y, z) {
      LessTransitive(x, y, z);
      LessIrreflexive(x);
    }
  }

  lemma {:induction false} LabelsAntisymmetric(a: seq<string>, b: seq<string>)
    ensures CompareLabels(a, b) == -CompareLabels(b, a)
    decreases |a| + |b|
  {
    if a != [] && b != [] {
      IdentifiersAntisymmetric(a[0], b[0]);
      LabelsAntisymmetric(a[1..], b[1..]);
    }
  }

  lemma {:induction false} LabelsTransitive(a: seq<string>, b: seq<string>, c: seq<string>)
    requires CompareLabels(a, b) <= 0 && CompareLabels(b, c) <= 0
    ensures CompareLabels(a, c) <= 0
    ensures CompareLabels(a, c) == 0 ==> CompareLabels(a, b) == 0 && CompareLabels(b, c) == 0
    decreases |a| + |b| + |c|
  {
    hide CompareIdentifiers;
    if a != [] && b != [] && c != [] {
      IdentifiersTransitive(a[0], b[0], c[0]);
      if CompareIdentifiers(a[0], c[0]) == 0 { LabelsTransitive(a[1..], b[1..], c[1..]); }
    }
  }

  lemma PrereleaseAntisymmetric(a: seq<string>, b: seq<string>)
    ensures ComparePrerelease(a, b) == -ComparePrerelease(b, a)
  {
    LabelsAntisymmetric(a, b);
  }

  lemma PrereleaseTransitive(a: seq<string>, b: seq<string>, c: seq<string>)
    requires ComparePrerelease(a, b) <= 0 && ComparePrerelease(b, c) <= 0
    ensures ComparePrerelease(a, c) <= 0
  {
    if a != [] && b != [] && c != [] { LabelsTransitive(a, b, c); }
  }

  /** Swapping the arguments negates the result, so the order is reflexive and total. */
  lemma CompareAntisymmetric(a: ParsedVersion, b: ParsedVersion)
    ensures Compare(a, b) == -Compare(b, a)
  {
    PartsAntisymmetric(a.parts, b.parts);
    PrereleaseAntisymmetric(a.prerelease, b.prerelease);
  }

  lemma CompareTransitive(a: ParsedVersion, b: ParsedVersion, c: ParsedVersion)
    requires Compare(a, b) <= 0 && Compare(b, c) <= 0
    ensures Compare(a, c) <= 0
  {
    PartsTransitive(a.parts, b.parts, c.parts);
    if CompareParts(a.parts, c.parts) == 0 {
      PrereleaseTransitive(a.prerelease, b.prerelease, c.prerelease);
    }
  }

  // --------------------------------------------------- what equality and order mean

  datatype Identifier = Number(n: nat) | Word(s: string)

  function Normal(x: string): Identifier { if IsNumeral(x) then Number(Value(x)) else Word(x) }

  lemma IdentifiersZero(x: string, y: string)
    ensures CompareIdentifiers(x, y) == 0 <==> Normal(x) == Normal(y)
  {
    LessIrreflexive(x);
  }

  /** The comparator returns 0 exactly on versions with the same padded components and the same identifiers by value. */
  lemma CompareZero(a: ParsedVersion, b: ParsedVersion)
    ensures Compare(a, b) == 0 <==>
            && (forall i: nat :: Part(a.parts, i) == Part(b.parts, i))
            && |a.prerelease| == |b.prerelease|
            && (forall i :: 0 <= i < |a.prerelease| ==> Normal(a.prerelease[i]) == Normal(b.prerelease[i]))
  {
    PartsZero(a.parts, b.parts);
    LabelsZero(a.prerelease, b.prerelease);
  }

  lemma {:induction false} LabelsZero(a: seq<string>, b: seq<string>)
    ensures CompareLabels(a, b) == 0 <==>
            |a| == |b| && forall i :: 0 <= i < |a| ==> Normal(a[i]) == Normal(b[i])
    decreases |a| + |b|
  {
    hide CompareIdentifiers, Normal;
    if a != [] && b != [] {
      IdentifiersZero(a[0], b[0]);
      LabelsZero(a[1..], b[1..]);
      assert forall i :: 0 < i < |a| ==> a[i] == a[1..][i - 1];
      assert forall i :: 0 < i < |b| ==> b[i] == b[1..][i - 1];
      if |a| == |b| && forall i :: 0 <= i < |a| ==> Normal(a[i]) == Normal(b[i]) {
        assert forall i :: 0 <= i < |a[1..]| ==> a[1..][i] == a[i + 1] && b[1..][i] == b[i + 1];
      }
    }
  }

  /**
   * Section 11.4 of Semantic Versioning 2.0.0, items 1 to 3: numeric
   * identifiers by value, others in ASCII order, numeric below the rest.
   */
  predicate IdentifierLower(x: Identifier, y: Identifier) {
    match (x, y)
    case (Number(m), Number(n)) => m < n
    case (Number(_), Word(_)) => true
    case (Word(_), Number(_)) => false
    case (Word(s), Word(t)) => Less(s, t)
  }

  /** Section 11.4: the first differing identifier decides; item 4: otherwise the longer list is higher. */
  ghost predicate LowerAt(a: seq<string>, b: seq<string>, k: int) {
    && 0 <= k <= |a| && k < |b|
    && (forall i :: 0 <= i < k ==> Normal(a[i]) == Normal(b[i]))
    && (k == |a| || IdentifierLower(Normal(a[k]), Normal(b[k])))
  }

  lemma IdentifiersLower(x: string, y: string)
    ensures CompareIdentifiers(x, y) < 0 <==> IdentifierLower(Normal(x), Normal(y))
  {
    LessIrreflexive(x);
  }

  /** The pre-release half of the comparator is section 11.4. */
  lemma {:induction false} LabelsFollowSemVer(a: seq<string>, b: seq<string>)
    ensures CompareLabels(a, b) < 0 <==> exists k :: LowerAt(a, b, k)
    decreases |a| + |b|
  {
    hide CompareIdentifiers, Normal, IdentifierLower;
    if b == [] {
    } else if a == [] {
      assert LowerAt(a, b, 0);
    } else {
      IdentifiersZero(a[0], b[0]);
      IdentifiersLower(a[0], b[0]);
      if CompareIdentifiers(a[0], b[0]) != 0 {
        assert LowerAt(a, b, 0) <==> CompareIdentifiers(a[0], b[0]) < 0;
        assert forall k :: LowerAt(a, b, k) ==> k == 0;
      } else {
        LabelsFollowSemVer(a[1..], b[1..]);
        NotLowerEqual(a[0], b[0]);
        ShiftLower(a, b);
      }
    }
  }

  lemma NotLowerEqual(x: string, y: string)
    requires Normal(x) == Normal(y)
    ensures !IdentifierLower(Normal(x), Normal(y))
  {
    if !IsNumeral(x) { LessIrreflexive(x); }
  }

  lemma ShiftLower(a: seq<string>, b: seq<string>)
    requires a != [] && b != [] && Normal(a[0]) == Normal(b[0])
    requires !IdentifierLower(Normal(a[0]), Normal(b[0]))
    ensures (exists k :: LowerAt(a, b, k)) <==> exists k :: LowerAt(a[1..], b[1..], k)
  {
    hide Normal, IdentifierLower;
    if exists k :: LowerAt(a, b, k) {
      var k :| LowerAt(a, b, k);
      assert LowerAt(a[1..], b[1..], k - 1);
    }
    if exists k :: LowerAt(a[1..], b[1..], k) {
      var k :| LowerAt(a[1..], b[1..], k);
      assert forall i :: 0 < i < k + 1 ==> a[i] == a[1..][i - 1] && b[i] == b[1..][i - 1];
      assert LowerAt(a, b, k + 1);
    }
  }

  /** The components first differ at `k`, where `a` is smaller; missing ones count as zero. */
  ghost predicate SmallerAt(a: seq<nat>, b: seq<nat>, k: nat) {
    Part(a, k) < Part(b, k) && forall i: nat :: i < k ==> Part(a, i) == Part(b, i)
  }

  lemma {:induction false} PartsFollowSemVer(a: seq<nat>, b: seq<nat>)
    ensures CompareParts(a, b) < 0 <==> exists k: nat :: SmallerAt(a, b, k)
    decreases |a| + |b|
  {
    if a == [] && b == [] {
    } else if Part(a, 0) != Part(b, 0) {
      assert Part(a, 0) < Part(b, 0) ==> SmallerAt(a, b, 0);
    } else {
      PartsFollowSemVer(Rest(a), Rest(b));
      ShiftSmaller(a, b);
    }
  }

  lemma ShiftSmaller(a: seq<nat>, b: seq<nat>)
    requires Part(a, 0) == Part(b, 0)
    ensures (exists k: nat :: SmallerAt(a, b, k)) <==> exists k: nat :: SmallerAt(Rest(a), Rest(b), k)
  {
    PartsOfRest(a);
    PartsOfRest(b);
    if k: nat :| SmallerAt(a, b, k) {
      assert k > 0;
      forall i: nat | i < k - 1 ensures Part(Rest(a), i) == Part(Rest(b), i) { assert Part(a, i + 1) == Part(b, i + 1); }
      assert SmallerAt(Rest(a), Rest(b), k - 1);
    }
    if k: nat :| SmallerAt(Rest(a), Rest(b), k) {
      forall i: nat | i < k + 1 ensures Part(a, i) == Part(b, i) {
        if i > 0 { assert Part(Rest(a), i - 1) == Part(Rest(b), i - 1); }
      }
      assert SmallerAt(a, b, k + 1);
    }
  }

  lemma PartsOfRest(a: seq<nat>)
    ensures forall i: nat :: Part(Rest(a), i) == Part(a, i + 1)
  {
  }

  /**
   * The whole comparator: smaller at the first differing component, or equal
   * components and a pre-release below its release or below the other label.
   */
  lemma CompareFollowsSemVer(a: ParsedVersion, b: ParsedVersion)
    ensures Compare(a, b) < 0 <==>
            || (exists k: nat :: SmallerAt(a.parts, b.parts, k))
            || ((forall i: nat :: Part(a.parts, i) == Part(b.parts, i))
                && a.prerelease != [] && (b.prerelease == [] || exists k :: LowerAt(a.prerelease, b.prerelease, k)))
  {
    hide CompareParts, CompareLabels, Part, LowerAt;
    PartsFollowSemVer(a.parts, b.parts);
    PartsZero(a.parts, b.parts);
    LabelsFollowSemVer(a.prerelease, b.prerelease);
  }
}
