// The daemon's build version: how the output of `git describe` becomes a
// version string, and where that version ranks against the releases around it.
module GitDescribe {
  import opened Text
  import opened Versions

  /** `MAJOR.MINOR.PATCH`: three nonempty runs of digits. */
  predicate IsBareSemver(s: string) {
    var parts := Split(s, '.');
    |parts| == 3 && AllNumerals(parts)
  }

  /**
   * Increment the patch component; a patch that does not fit 64 bits leaves the
   * text alone. `None` is the arithmetic overflow of the highest patch number.
   */
  function BumpPatch(version: string): Option<string> {
    var parts := Split(version, '.');
    if |parts| == 3 && ParseU64(parts[2]).Some? then
      var patch := ParseU64(parts[2]).value;
      if patch == U64_MAX then None else Some(parts[0] + "." + parts[1] + "." + Print(patch + 1))
    else Some(version)
  }

  function NoTagVersion(describe: string, cargo: string): string {
    if EndsWith(describe, "-dirty")
    then cargo + "-dev.dirty+g" + describe[..|describe| - 6]
    else cargo + "-dev+g" + describe
  }

  /** The `BASE-COUNT-gHASH` form; `cargo` is the fallback version. */
  function FromCommits(rest: string, dirty: bool, cargo: string): Option<string> {
    var hashPos := LastIndexOf(rest, "-g");
    if hashPos == -1 then Some(cargo)
    else
      var hash, before := rest[hashPos + 1..], rest[..hashPos];
      var countPos := LastIndexOf(before, "-");
      if countPos == -1 then Some(cargo)
      else
        var base, count := before[..countPos], before[countPos + 1..];
        if !IsBareSemver(base) then Some(cargo)
        else
          var bumped := BumpPatch(base);
          if bumped.None? then None
          else Some(bumped.value + "-dev." + count + (if dirty then ".dirty" else "") + "+" + hash)
  }

  function ParseGitDescribe(describe: string, cargo: string): Option<string> {
    if !StartsWith(describe, "v") then Some(NoTagVersion(describe, cargo))
    else
      var rest := describe[1..];
      if EndsWith(rest, "-dirty") then
        var clean := rest[..|rest| - 6];
        if IsBareSemver(clean) then Some(clean + "-dirty") else FromCommits(clean, true, cargo)
      else if IsBareSemver(rest) then Some(rest)
      else FromCommits(rest, false, cargo)
  }

  // ---------------------------------------------------------- inverting the layout

  predicate IsHexDigit(c: char) { '0' <= c <= '9' || 'a' <= c <= 'f' }

  predicate IsHash(s: string) { s != [] && forall i :: 0 <= i < |s| ==> IsHexDigit(s[i]) }

  /** A base version in its three components. */
  datatype Base = Base(major: string, minor: string, patch: string)

  predicate Numeric(b: Base) { IsNumeral(b.major) && IsNumeral(b.minor) && IsNumeral(b.patch) }

  function BaseText(b: Base): string { b.major + "." + b.minor + "." + b.patch }

  /** The next patch; one too large for 64 bits stays, and the highest that fits has no successor. */
  function Bumped(b: Base): Option<Base>
    requires Numeric(b)
  {
    if Value(b.patch) < U64_MAX then Some(b.(patch := Print(Value(b.patch) + 1)))
    else if Value(b.patch) == U64_MAX then None
    else Some(b)
  }

  /** What `git describe --tags --always --dirty` prints `count` commits after tag `vBASE`. */
  function Describe(b: Base, count: string, hash: string, dirty: bool): string {
    "v" + BaseText(b) + "-" + count + "-g" + hash + (if dirty then "-dirty" else "")
  }

  /** The version a build reports that leads to the release `next`. */
  function DevVersion(next: Base, count: string, hash: string, dirty: bool): string {
    BaseText(next) + "-dev." + count + (if dirty then ".dirty" else "") + "+" + ("g" + hash)
  }

  lemma NumeralLacks(s: string, c: char)
    requires IsNumeral(s) && !IsDigit(c)
    ensures c !in s
  {
  }

  lemma SplitBase(b: Base)
    requires Numeric(b)
    ensures Split(BaseText(b), '.') == [b.major, b.minor, b.patch]
    ensures IsBareSemver(BaseText(b))
  {
    var parts := [b.major, b.minor, b.patch];
    NumeralLacks(b.major, '.');
    NumeralLacks(b.minor, '.');
    NumeralLacks(b.patch, '.');
    assert parts[1..] == [b.minor, b.patch] && parts[1..][1..] == [b.patch];
    assert Join(parts[1..], '.') == b.minor + "." + b.patch;
    assert Join(parts, '.') == BaseText(b);
    SplitOfJoin(parts, '.');
  }

  lemma BaseTextOf(b: Base)
    ensures BaseText(b) == b.major + "." + b.minor + "." + b.patch
  {
  }

  lemma BumpBase(b: Base)
    requires Numeric(b)
    ensures BumpPatch(BaseText(b)) == if Bumped(b).None? then None else Some(BaseText(Bumped(b).value))
  {
    hide Split, BaseText, Print, Value;
    SplitBase(b);
    assert IsDigit(b.patch[0]);
    assert ParseU64(b.patch) == if Value(b.patch) <= U64_MAX then Some(Value(b.patch)) else None;
    if Value(b.patch) < U64_MAX { BaseTextOf(Bumped(b).value); }
  }

  /** The last separator is the one before a piece without any. */
  lemma LastSeparator(a: string, c: char, b: string)
    requires c !in b
    ensures LastIndexOf(a + [c] + b, [c]) == |a|
  {
    var s, i := a + [c] + b, LastIndexOf(a + [c] + b, [c]);
    assert OccursAt(s, [c], |a|);
    assert OccursAt(s, [c], i) ==> s[i] == c;
    assert forall k :: |a| < k < |s| ==> s[k] == b[k - |a| - 1];
  }

  lemma LastDashG(a: string, hash: string)
    requires IsHash(hash)
    ensures LastIndexOf(a + "-g" + hash, "-g") == |a|
  {
    var s, i := a + "-g" + hash, LastIndexOf(a + "-g" + hash, "-g");
    assert OccursAt(s, "-g", |a|);
    assert OccursAt(s, "-g", i) ==> s[i..i + 2][0] == s[i];
    assert forall k :: |a| + 1 < k < |s| ==> s[k] == hash[k - |a| - 2];
    assert s[|a| + 1] == 'g';
  }

  /** A bare version holds nothing but digits and dots. */
  lemma BareLacks(s: string, c: char)
    requires IsBareSemver(s) && !IsDigit(c) && c != '.'
    ensures c !in s
  {
    var parts := Split(s, '.');
    forall p | p in parts ensures c !in p {
      var i :| 0 <= i < |parts| && parts[i] == p;
      NumeralLacks(p, c);
    }
    JoinLacks(parts, '.', c);
  }

  lemma CommitParts(base: string, count: string, hash: string)
    requires IsHash(hash) && '-' !in count
    ensures var rest := base + "-" + count + "-g" + hash;
            var i := LastIndexOf(rest, "-g");
            && i >= 0 && rest[i + 1..] == "g" + hash
            && rest[..i] == base + "-" + count
            && LastIndexOf(rest[..i], "-") == |base|
            && (base + "-" + count)[..|base|] == base && (base + "-" + count)[|base| + 1..] == count
  {
    hide LastIndexOf, IsHash;
    var before := base + "-" + count;
    var rest := before + "-g" + hash;
    LastDashG(before, hash);
    LastSeparator(base, '-', count);
    assert rest[..|before|] == before;
    assert rest[|before| + 1..] == "g" + hash;
  }

  lemma CommitsInverted(b: Base, count: string, hash: string, dirty: bool, cargo: string)
    requires Numeric(b) && IsNumeral(count) && IsHash(hash)
    ensures FromCommits(BaseText(b) + "-" + count + "-g" + hash, dirty, cargo)
         == if Bumped(b).None? then None else Some(DevVersion(Bumped(b).value, count, hash, dirty))
  {
    hide LastIndexOf, IsBareSemver, BumpPatch, BaseText, IsNumeral, IsHash, Numeric, Bumped;
    assert '-' !in count by { NumeralLacks(count, '-'); }
    CommitParts(BaseText(b), count, hash);
    BumpBase(b);
    assert IsBareSemver(BaseText(b)) by { SplitBase(b); }
  }

  lemma HashEndsCleanly(a: string, hash: string)
    requires IsHash(hash)
    ensures !EndsWith(a + hash, "-dirty")
  {
    var s := a + hash;
    assert s[|s| - 1] == hash[|hash| - 1];
    assert |s| >= 6 ==> s[|s| - 6..][5] == s[|s| - 1];
  }

  /** `parse_git_describe` inverts the layout of `git describe`, clean or dirty. */
  lemma DescribeInverted(b: Base, count: string, hash: string, dirty: bool, cargo: string)
    requires Numeric(b) && IsNumeral(count) && IsHash(hash)
    ensures ParseGitDescribe(Describe(b, count, hash, dirty), cargo)
         == if Bumped(b).None? then None else Some(DevVersion(Bumped(b).value, count, hash, dirty))
  {
    hide FromCommits, IsBareSemver, DevVersion, BaseText, LastIndexOf, Bumped;
    var clean := BaseText(b) + "-" + count + "-g" + hash;
    var d := Describe(b, count, hash, dirty);
    assert '-' in clean;
    assert !IsBareSemver(clean) by {
      if IsBareSemver(clean) { BareLacks(clean, '-'); }
    }
    CommitsInverted(b, count, hash, dirty, cargo);
    var rest := d[1..];
    assert StartsWith(d, "v");
    if dirty {
      assert rest == clean + "-dirty";
      assert EndsWith(rest, "-dirty") && rest[..|rest| - 6] == clean;
    } else {
      assert rest == clean;
      HashEndsCleanly(BaseText(b) + "-" + count + "-g", hash);
    }
  }

  /** An exact tag gives the bare version, marked when the tree was dirty. */
  lemma ExactTag(base: string, cargo: string)
    requires IsBareSemver(base)
    ensures ParseGitDescribe("v" + base, cargo) == Some(base)
    ensures ParseGitDescribe("v" + base + "-dirty", cargo) == Some(base + "-dirty")
  {
    hide FromCommits, IsBareSemver;
    var clean, dirty := "v" + base, "v" + base + "-dirty";
    assert StartsWith(clean, "v") && clean[1..] == base;
    assert StartsWith(dirty, "v") && dirty[1..] == base + "-dirty";
    assert dirty[1..][..|base|] == base && EndsWith(dirty[1..], "-dirty");
    BareLacks(base, '-');
    assert |base| >= 6 ==> base[|base| - 6..][0] == base[|base| - 6] && base[|base| - 6] in base;
  }

  /** Without any tag the output is a hash, which becomes build metadata of the manifest's version. */
  lemma UntaggedHash(hash: string, cargo: string)
    requires IsHash(hash)
    ensures ParseGitDescribe(hash, cargo) == Some(cargo + "-dev+g" + hash)
    ensures ParseGitDescribe(hash + "-dirty", cargo) == Some(cargo + "-dev.dirty+g" + hash)
  {
    hide FromCommits, IsBareSemver;
    var dirty := hash + "-dirty";
    assert IsHexDigit(hash[0]) && dirty[0] == hash[0];
    HashEndsCleanly("", hash);
    assert "" + hash == hash;
    assert EndsWith(dirty, "-dirty") && dirty[..|dirty| - 6] == hash;
  }

  // ------------------------------------------------------------------ where it ranks

  function BaseParts(b: Base): seq<nat>
    requires Numeric(b)
  { [Value(b.major), Value(b.minor), Value(b.patch)] }

  function Labels(count: string, dirty: bool): seq<string> {
    if dirty then ["dev", count, "dirty"] else ["dev", count]
  }

  function Tailed(base: string, tail: string): string { if tail == "" then base else base + "-" + tail }

  /** Parsing a bare base with an optional pre-release tail and build suffix. */
  lemma {:induction false} ParseBare(base: string, tail: string, build: string)
    requires IsBareSemver(base) && '+' !in tail && (build == "" || build[0] == '+')
    ensures Parse(Tailed(base, tail) + build)
         == Some(ParsedVersion(Tailed(base, tail), Values(Split(base, '.')), if tail == "" then [] else Split(tail, '.')))
  {
    hide IsBareSemver, Values, Split, Join, AllNumerals, Parse, Tailed;
    BareSegments(base);
    var dash := if tail == "" then "" else "-" + tail;
    var w := Written("", Split(base, '.'), dash, build);
    assert Tailed(base, tail) == base + dash by { TailedDash(base, tail); }
    ParseWritten(w);
    assert "" + (base + dash + build) == base + dash + build;
    assert tail != "" ==> dash[1..] == tail;
  }

  lemma TailedDash(base: string, tail: string)
    ensures Tailed(base, tail) == base + if tail == "" then "" else "-" + tail
  {
  }

  lemma {:induction false} BareSegments(base: string)
    requires IsBareSemver(base)
    ensures AllNumerals(Split(base, '.')) && Split(base, '.') != [] && Join(Split(base, '.'), '.') == base
  {
  }

  lemma TailSplitsOff(base: string, tail: string)
    requires '-' !in base
    ensures Before(Tailed(base, tail), '-') == base
    ensures tail == if '-' in Tailed(base, tail) then Tailed(base, tail)[IndexOf(Tailed(base, tail), '-') + 1..] else ""
  {
    var dash := if tail == "" then "" else "-" + tail;
    DashSplitsOff(base, dash);
    assert Tailed(base, tail) == base + dash;
    assert tail != "" ==> dash[1..] == tail;
  }

  lemma BaseValues(b: Base)
    requires Numeric(b)
    ensures AllNumerals(Split(BaseText(b), '.')) && Values(Split(BaseText(b), '.')) == BaseParts(b)
  {
    hide BaseText;
    SplitBase(b);
    assert Values([b.major, b.minor, b.patch]) == BaseParts(b);
  }

  lemma ParseDevVersion(b: Base, count: string, hash: string, dirty: bool) returns (v: ParsedVersion)
    requires Numeric(b) && IsNumeral(count)
    ensures Parse(DevVersion(b, count, hash, dirty)) == Some(v)
    ensures v.parts == BaseParts(b) && v.prerelease == Labels(count, dirty)
  {
    hide Parse, BaseText, Split, Values, IsBareSemver, BaseParts;
    var base := BaseText(b);
    var tail := Join(Labels(count, dirty), '.');
    LabelsJoined(count, dirty);
    BaseValues(b);
    SplitBase(b);
    ParseBare(base, tail, "+" + ("g" + hash));
    DevLayout(base, count, hash, dirty);
    v := ParsedVersion(base + "-" + tail, BaseParts(b), Labels(count, dirty));
  }

  lemma DevLayout(base: string, count: string, hash: string, dirty: bool)
    ensures base + "-" + Join(Labels(count, dirty), '.') + ("+" + ("g" + hash))
         == base + "-dev." + count + (if dirty then ".dirty" else "") + "+" + ("g" + hash)
  {
    var body := Join(Labels(count, dirty), '.');
    var suffix := if dirty then ".dirty" else "";
    JoinedText(count, dirty);
    assert base + "-" + ("dev." + (count + suffix)) == base + "-dev." + count + suffix;
  }

  lemma JoinedText(count: string, dirty: bool)
    ensures Join(Labels(count, dirty), '.') == "dev." + (count + if dirty then ".dirty" else "")
  {
    if dirty {
      assert ["dev", count, "dirty"][1..] == [count, "dirty"] && [count, "dirty"][1..] == ["dirty"];
      assert Join([count, "dirty"], '.') == count + ['.'] + Join(["dirty"], '.');
      assert count + ['.'] + "dirty" == count + ".dirty";
      assert Join(Labels(count, dirty), '.') == "dev" + ['.'] + (count + ".dirty");
    } else {
      assert ["dev", count][1..] == [count];
      assert count + "" == count;
      assert Join(Labels(count, dirty), '.') == "dev" + ['.'] + count;
    }
  }

  lemma LabelsJoined(count: string, dirty: bool)
    requires IsNumeral(count)
    ensures var tail := Join(Labels(count, dirty), '.');
            tail != "" && '+' !in tail && Split(tail, '.') == Labels(count, dirty)
  {
    hide Split, Join, IsNumeral;
    var parts := Labels(count, dirty);
    assert '+' !in count && '.' !in count by {
      NumeralLacks(count, '+');
      NumeralLacks(count, '.');
    }
    JoinedText(count, dirty);
    assert '.' !in "dev" && '.' !in "dirty" && '+' !in "dev" && '+' !in "dirty";
    SplitOfJoin(parts, '.');
    JoinLacks(parts, '.', '+');
  }

  /**
   * A development build ranks strictly below the release it leads to, and
   * strictly above the tag it follows exactly when the patch could be bumped.
   */
  lemma DevBuildBetweenReleases(b: Base, count: string, hash: string, dirty: bool)
    requires Numeric(b) && Bumped(b).Some? && IsNumeral(count)
    ensures var after := Bumped(b).value;
            var dev, tag, next := Parse(DevVersion(after, count, hash, dirty)), Parse("v" + BaseText(b)), Parse("v" + BaseText(after));
            && dev.Some? && tag.Some? && next.Some?
            && Compare(dev.value, next.value) < 0
            && (Compare(tag.value, dev.value) < 0 <==> Value(b.patch) < U64_MAX)
  {
    hide Parse, BaseText, DevVersion;
    var after := Bumped(b).value;
    var dev := ParseDevVersion(after, count, hash, dirty);
    ParseTag(b);
    ParseTag(after);
    ThreeParts(BaseParts(b), BaseParts(after));
    ThreeParts(BaseParts(after), BaseParts(after));
  }

  lemma ParseTag(b: Base)
    requires Numeric(b)
    ensures Parse("v" + BaseText(b)) == Some(ParsedVersion(BaseText(b), BaseParts(b), []))
    ensures Parse(BaseText(b)) == Some(ParsedVersion(BaseText(b), BaseParts(b), []))
  {
    hide BaseText, IsBareSemver, Split, Values, Parse;
    var base := BaseText(b);
    SplitBase(b);
    BaseValues(b);
    BareSegments(base);
    var w := Written("v", Split(base, '.'), "", "");
    ParseWritten(w);
    assert TagText(w) == "v" + base && BareText(w) == base;
    ParseBare(base, "", "");
    assert base + "" == base;
  }

  lemma {:induction false} ThreeParts(a: seq<nat>, b: seq<nat>)
    requires |a| == 3 && |b| == 3 && a[0] == b[0] && a[1] == b[1]
    ensures CompareParts(a, b) == a[2] as int - b[2] as int
  {
    PartsRest(a, b);
    PartsRest(Rest(a), Rest(b));
    var ra, rb := Rest(Rest(a)), Rest(Rest(b));
    assert |ra| == 1 && |rb| == 1 && ra[0] == a[2] && rb[0] == b[2];
    assert Rest(ra) == [] && Rest(rb) == [];
    assert CompareParts([], []) == 0;
  }

  lemma {:induction false} LabelsByCount(c1: string, d1: bool, c2: string, d2: bool)
    requires IsNumeral(c1) && IsNumeral(c2) && Value(c1) < Value(c2)
    ensures CompareLabels(Labels(c1, d1), Labels(c2, d2)) < 0
  {
    hide Value, IsNumeral;
    var a, b := Labels(c1, d1), Labels(c2, d2);
    assert CompareIdentifiers("dev", "dev") == 0 by { IdentifiersZero("dev", "dev"); }
    assert CompareIdentifiers(c1, c2) < 0 by { CountsCompare(c1, c2); }
    assert a[1..][0] == c1 && b[1..][0] == c2;
    assert CompareLabels(a, b) == CompareLabels(a[1..], b[1..]);
  }

  lemma {:induction false} CountsCompare(c1: string, c2: string)
    requires IsNumeral(c1) && IsNumeral(c2) && Value(c1) < Value(c2)
    ensures CompareIdentifiers(c1, c2) < 0
  {
  }

  /** Among builds off one tag, more commits rank strictly higher, whatever the hashes and dirtiness. */
  lemma {:induction false} MoreCommitsRankHigher(b: Base, c1: string, h1: string, d1: bool, c2: string, h2: string, d2: bool)
    requires Numeric(b) && IsNumeral(c1) && IsNumeral(c2) && Value(c1) < Value(c2)
    ensures var x, y := Parse(DevVersion(b, c1, h1, d1)), Parse(DevVersion(b, c2, h2, d2));
            x.Some? && y.Some? && Compare(x.value, y.value) < 0
  {
    hide Parse, BaseText, DevVersion;
    var x := ParseDevVersion(b, c1, h1, d1);
    var y := ParseDevVersion(b, c2, h2, d2);
    ThreeParts(x.parts, y.parts);
    LabelsByCount(c1, d1, c2, d2);
  }

  /** A dirty build of an exact tag ranks below the tag: its mark reads as a pre-release. */
  lemma DirtyTagRanksBelow(b: Base)
    requires Numeric(b)
    ensures var dirty, tag := Parse(BaseText(b) + "-dirty"), Parse(BaseText(b));
            dirty.Some? && tag.Some? && Compare(dirty.value, tag.value) < 0
  {
    hide Parse, BaseText, Split, Values, IsBareSemver;
    assert Split("dirty", '.') == ["dirty"] by { SplitOfJoin(["dirty"], '.'); }
    SplitBase(b);
    BaseValues(b);
    ParseBare(BaseText(b), "dirty", "");
    ParseTag(b);
    assert BaseText(b) + "-" + "dirty" + "" == BaseText(b) + "-dirty";
    ThreeParts(BaseParts(b), BaseParts(b));
  }

  /**
   * A tag-like output that is neither a bare version, clean or dirty, nor commits
   * after a bare version falls back to the manifest's version.
   */
  lemma UnrecognisedFallsBack(rest: string, cargo: string)
    requires var clean := if EndsWith(rest, "-dirty") then rest[..|rest| - 6] else rest;
             && !IsBareSemver(clean)
             && forall base, count, hash :: clean == base + "-" + count + "-g" + hash ==> !IsBareSemver(base)
    ensures ParseGitDescribe("v" + rest, cargo) == Some(cargo)
  {
    hide IsBareSemver, LastIndexOf;
    var clean := if EndsWith(rest, "-dirty") then rest[..|rest| - 6] else rest;
    assert ("v" + rest)[1..] == rest && ("v" + rest)[..1] == "v";
    assert FromCommits(clean, EndsWith(rest, "-dirty"), cargo) == Some(cargo) by {
      CommitsFallBack(clean, EndsWith(rest, "-dirty"), cargo);
    }
    hide FromCommits;
  }

  lemma CommitsFallBack(clean: string, dirty: bool, cargo: string)
    requires forall base, count, hash :: clean == base + "-" + count + "-g" + hash ==> !IsBareSemver(base)
    ensures FromCommits(clean, dirty, cargo) == Some(cargo)
  {
    hide IsBareSemver, LastIndexOf, BumpPatch;
    var g := LastIndexOf(clean, "-g");
    if g != -1 {
      var before := clean[..g];
      var d := LastIndexOf(before, "-");
      SplitAt(clean, "-g", g);
      if d != -1 {
        SplitAt(before, "-", d);
        assert clean == before[..d] + "-" + before[d + 1..] + "-g" + clean[g + 2..];
      }
    }
  }

  lemma SplitAt(s: string, pat: string, i: int)
    requires OccursAt(s, pat, i)
    ensures s == s[..i] + pat + s[i + |pat|..]
  {
    assert s == s[..i] + s[i..i + |pat|] + s[i + |pat|..];
  }
}
