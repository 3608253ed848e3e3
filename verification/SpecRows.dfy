// From grouped releases to the rows of the specification manifest and on to
// the version picker of the API reference page.
module SpecRows {
  import opened Text
  import opened Sorting
  import opened Versions
  import opened Manifests
  import opened Channels

  /** The version a manifest string denotes; every string in a manifest parses. */
  function Parsed(s: string): ParsedVersion {
    if Parse(s).Some? then Parse(s).value else ParsedVersion("", [], [])
  }

  const OLDEST_FIRST: (ParsedVersion, ParsedVersion) -> bool :=
    (a: ParsedVersion, b: ParsedVersion) => Compare(a, b) <= 0

  const NEWEST_SHIPPED_FIRST: (Shipped, Shipped) -> bool :=
    (a: Shipped, b: Shipped) => Compare(a.version, b.version) >= 0

  const LATEST_FIRST: (Row, Row) -> bool :=
    (a: Row, b: Row) => Compare(Parsed(a.latestVersion), Parsed(b.latestVersion)) >= 0

  function Texts(vs: seq<ParsedVersion>): (r: seq<string>)
    ensures |r| == |vs|
    ensures forall i :: 0 <= i < |vs| ==> r[i] == vs[i].version
  {
    seq(|vs|, i requires 0 <= i < |vs| => vs[i].version)
  }

  function RowOf(g: Group): Row {
    var versions := Texts(Sort(OLDEST_FIRST, g.versions));
    if versions == [] then Row(g.sha256, g.openapiUrl, [], "", "", g.includesPrerelease)
    else Row(g.sha256, g.openapiUrl, versions, versions[0], versions[|versions| - 1], g.includesPrerelease)
  }

  function RowsOf(groups: seq<Group>): (r: seq<Row>)
    ensures |r| == |groups|
    ensures forall i :: 0 <= i < |groups| ==> r[i] == RowOf(groups[i])
  {
    seq(|groups|, i requires 0 <= i < |groups| => RowOf(groups[i]))
  }

  /** The outcomes arrive newest first, and their versions came out of the parser. */
  ghost predicate FromSortedReleases(xs: seq<Shipped>) {
    && Ordered(NEWEST_SHIPPED_FIRST, xs)
    && forall x :: x in xs ==> Parse(x.version.version) == Some(x.version)
  }

  method BuildRows(outcomes: seq<Option<Shipped>>) returns (rows: seq<Row>)
    ensures rows == Sort(LATEST_FIRST, RowsOf(Grouped(Settled(outcomes))))
  {
    hide RowOf, Grouped, Sort;
    var groups := GroupBySpec(outcomes);
    rows := [];
    var i := 0;
    while i < |groups|
      invariant 0 <= i <= |groups|
      invariant rows == RowsOf(groups[..i])
    {
      assert groups[..i + 1][..i] == groups[..i];
      rows := rows + [RowOf(groups[i])];
      i := i + 1;
    }
    assert groups[..i] == groups;
    rows := Sort(LATEST_FIRST, rows);
  }

  // ------------------------------------------------------------------ order facts

  lemma OldestFirstIsPreorder()
    ensures TotalPreorder(OLDEST_FIRST)
  {
    hide Compare;
    forall x: ParsedVersion, y: ParsedVersion ensures OLDEST_FIRST(x, y) || OLDEST_FIRST(y, x) {
      CompareAntisymmetric(x, y);
    }
    forall x: ParsedVersion, y: ParsedVersion, z: ParsedVersion | OLDEST_FIRST(x, y) && OLDEST_FIRST(y, z)
      ensures OLDEST_FIRST(x, z)
    {
      CompareTransitive(x, y, z);
    }
  }

  lemma NotOlder(a: ParsedVersion, b: ParsedVersion, c: ParsedVersion)
    requires Compare(a, b) >= 0 && Compare(b, c) >= 0
    ensures Compare(a, c) >= 0
  {
    hide Compare;
    CompareAntisymmetric(a, b);
    CompareAntisymmetric(b, c);
    CompareAntisymmetric(a, c);
    CompareTransitive(c, b, a);
  }

  /** Sorting what is already in order changes nothing. */
  lemma {:induction false} SortOfOrdered<T(!new)>(leq: (T, T) -> bool, xs: seq<T>)
    requires Ordered(leq, xs)
    ensures Sort(leq, xs) == xs
  {
    if xs != [] {
      SortOfOrdered(leq, xs[1..]);
      assert xs == [xs[0]] + xs[1..];
      assert |xs| > 1 ==> leq(xs[0], xs[1]);
    }
  }

  // ------------------------------------------------------------- what a row holds

  /** The row lists, oldest first, exactly the versions that shipped its specification, each as often as it did. */
  ghost predicate RowLists(row: Row, xs: seq<Shipped>) {
    && row.versions != []
    && (forall i, j :: 0 <= i < j < |row.versions| ==> Compare(Parsed(row.versions[i]), Parsed(row.versions[j])) <= 0)
    && (forall u :: u in row.versions <==> exists x :: x in xs && x.hash == row.sha256 && x.version.version == u)
    && multiset(row.versions) == multiset(Texts(VersionsOf(Of(xs, row.sha256))))
    && row.firstVersion == row.versions[0] && row.latestVersion == row.versions[|row.versions| - 1]
  }

  lemma GroupRow(g: Group, xs: seq<Shipped>)
    requires Collects(g, xs) && FromSortedReleases(xs)
    ensures RowLists(RowOf(g), xs)
  {
    hide Compare, Sort, AnyPre, Parse;
    var mine := Of(xs, g.sha256);
    var sorted := Sort(OLDEST_FIRST, g.versions);
    OldestFirstIsPreorder();
    SortIsStable(OLDEST_FIRST, g.versions);
    forall v ensures v in sorted <==> exists x :: x in mine && x.version == v {
      SortedMembers(g.versions, v);
      VersionMembers(mine, v);
    }
    forall i | 0 <= i < |sorted| ensures Parsed(sorted[i].version) == sorted[i] {
      assert sorted[i] in sorted;
    }
    SortedTexts(g.versions);
    var row := RowOf(g);
    forall u ensures u in row.versions <==> exists x :: x in xs && x.hash == g.sha256 && x.version.version == u {
      TextMembers(sorted, u);
      if u in row.versions {
        var v :| v in sorted && v.version == u;
        var x :| x in mine && x.version == v;
        assert x in xs && x.hash == g.sha256 && x.version.version == u;
      }
      if exists x :: x in xs && x.hash == g.sha256 && x.version.version == u {
        var x :| x in xs && x.hash == g.sha256 && x.version.version == u;
        assert x in mine;
        assert x.version in sorted;
      }
    }
  }

  lemma {:induction false} InsertedTexts(v: ParsedVersion, vs: seq<ParsedVersion>)
    ensures multiset(Texts(Insert(OLDEST_FIRST, v, vs))) == multiset{v.version} + multiset(Texts(vs))
  {
    hide Compare;
    if vs == [] || OLDEST_FIRST(v, vs[0]) {
      assert Texts([v] + vs) == [v.version] + Texts(vs);
    } else {
      InsertedTexts(v, vs[1..]);
      assert Texts([vs[0]] + Insert(OLDEST_FIRST, v, vs[1..])) == [vs[0].version] + Texts(Insert(OLDEST_FIRST, v, vs[1..]));
      assert Texts(vs) == [vs[0].version] + Texts(vs[1..]);
    }
  }

  /** Sorting loses and repeats no version text. */
  lemma {:induction false} SortedTexts(vs: seq<ParsedVersion>)
    ensures multiset(Texts(Sort(OLDEST_FIRST, vs))) == multiset(Texts(vs))
  {
    hide Compare, Insert;
    if vs == [] {
      assert Texts(Sort(OLDEST_FIRST, vs)) == Texts(vs);
    } else {
      SortedTexts(vs[1..]);
      assert Sort(OLDEST_FIRST, vs) == Insert(OLDEST_FIRST, vs[0], Sort(OLDEST_FIRST, vs[1..]));
      InsertedTexts(vs[0], Sort(OLDEST_FIRST, vs[1..]));
      assert Texts(vs) == [vs[0].version] + Texts(vs[1..]);
    }
  }

  lemma {:induction false} SortedMembers(vs: seq<ParsedVersion>, v: ParsedVersion)
    ensures v in Sort(OLDEST_FIRST, vs) <==> v in vs
  {
    hide Sort;
    assert v in Sort(OLDEST_FIRST, vs) <==> v in multiset(Sort(OLDEST_FIRST, vs));
    assert v in vs <==> v in multiset(vs);
  }

  lemma VersionMembers(xs: seq<Shipped>, v: ParsedVersion)
    ensures v in VersionsOf(xs) <==> exists x :: x in xs && x.version == v
  {
    if v in VersionsOf(xs) {
      var i :| 0 <= i < |xs| && VersionsOf(xs)[i] == v;
      assert xs[i] in xs;
    }
    if exists x :: x in xs && x.version == v {
      var x :| x in xs && x.version == v;
      var i :| 0 <= i < |xs| && xs[i] == x;
      assert VersionsOf(xs)[i] == v;
    }
  }

  lemma TextMembers(vs: seq<ParsedVersion>, u: string)
    ensures u in Texts(vs) <==> exists v :: v in vs && v.version == u
  {
    if u in Texts(vs) {
      var i :| 0 <= i < |vs| && Texts(vs)[i] == u;
      assert vs[i] in vs;
    }
    if exists v :: v in vs && v.version == u {
      var v :| v in vs && v.version == u;
      var i :| 0 <= i < |vs| && vs[i] == v;
      assert Texts(vs)[i] == u;
    }
  }

  /** The release the latest version of a row came from: no release of the row is newer. */
  lemma LatestRelease(g: Group, xs: seq<Shipped>) returns (best: Shipped)
    requires Collects(g, xs) && FromSortedReleases(xs)
    ensures best in xs && best.hash == g.sha256 && Parse(RowOf(g).latestVersion) == Some(best.version)
    ensures forall x :: x in xs && x.hash == g.sha256 ==> Compare(best.version, x.version) >= 0
  {
    hide Compare, RowOf, Collects, Parse, Ordered;
    GroupRow(g, xs);
    RowHash(g);
    var row := RowOf(g);
    var last := |row.versions| - 1;
    assert row.versions[last] in row.versions;
    best :| best in xs && best.hash == g.sha256 && best.version.version == row.latestVersion;
    forall x | x in xs && x.hash == g.sha256 ensures Compare(best.version, x.version) >= 0 {
      assert x.version.version in row.versions;
      var i :| 0 <= i < |row.versions| && row.versions[i] == x.version.version;
      CompareAntisymmetric(best.version, x.version);
      if i < last { assert Compare(Parsed(row.versions[i]), Parsed(row.versions[last])) <= 0; }
    }
  }

  /** The re-parsed latest version is maximal in the row and the row's link is a release of that version. */
  lemma LatestIsMaximal(g: Group, xs: seq<Shipped>)
    requires Collects(g, xs) && FromSortedReleases(xs)
    ensures Parse(RowOf(g).latestVersion).Some?
    ensures forall x :: x in xs && x.hash == g.sha256 ==> Compare(Parsed(RowOf(g).latestVersion), x.version) >= 0
    ensures exists x :: x in xs && x.hash == g.sha256 && x.url == g.openapiUrl
                     && Compare(x.version, Parsed(RowOf(g).latestVersion)) == 0
  {
    hide Compare, RowOf, AnyPre, Parse;
    var best := LatestRelease(g, xs);
    CollectsFirst(g, xs);
    var k := FirstAt(xs, g.sha256);
    var j :| 0 <= j < |xs| && xs[j] == best;
    assert k < j ==> NEWEST_SHIPPED_FIRST(xs[k], xs[j]);
    CompareAntisymmetric(xs[k].version, best.version);
    assert xs[k] in xs && Compare(best.version, xs[k].version) >= 0;
  }

  /** Groups are found newest first, so the final sort of the rows has nothing to do. */
  lemma {:induction false} RowsArriveSorted(xs: seq<Shipped>)
    requires FromSortedReleases(xs)
    ensures Ordered(LATEST_FIRST, RowsOf(Grouped(xs)))
    ensures Sort(LATEST_FIRST, RowsOf(Grouped(xs))) == RowsOf(Grouped(xs))
  {
    hide Compare, Grouped, RowOf, Collects, Parse, FromSortedReleases;
    var groups, rows := Grouped(xs), RowsOf(Grouped(xs));
    GroupingPartitions(xs);
    forall p, q | 0 <= p < q < |rows| ensures LATEST_FIRST(rows[p], rows[q]) {
      EarlierRowIsNewer(groups[p], groups[q], xs);
    }
    SortOfOrdered(LATEST_FIRST, rows);
  }

  lemma {:induction false} EarlierRowIsNewer(g: Group, h: Group, xs: seq<Shipped>)
    requires Collects(g, xs) && Collects(h, xs) && FromSortedReleases(xs)
    requires FirstAt(xs, g.sha256) < FirstAt(xs, h.sha256)
    ensures LATEST_FIRST(RowOf(g), RowOf(h))
  {
    hide Compare, RowOf, AnyPre, Parse, Collects;
    LatestIsMaximal(g, xs);
    LatestIsMaximal(h, xs);
    CollectsFirst(g, xs);
    CollectsFirst(h, xs);
    var x := xs[FirstAt(xs, g.sha256)];
    var best :| best in xs && best.hash == h.sha256 && Compare(best.version, Parsed(RowOf(h).latestVersion)) == 0;
    var j :| 0 <= j < |xs| && xs[j] == best;
    assert j >= FirstAt(xs, h.sha256);
    assert NEWEST_SHIPPED_FIRST(x, xs[j]);
    assert x in xs && x.hash == g.sha256;
    NotOlder(Parsed(RowOf(g).latestVersion), x.version, best.version);
    NotOlder(Parsed(RowOf(g).latestVersion), best.version, Parsed(RowOf(h).latestVersion));
  }

  // ----------------------------------------------------------- the version picker

  datatype Choice = Choice(version: string, sha256: string, prerelease: bool)

  predicate IsPrerelease(version: string) { '-' in version }

  /** `[...row.versions].reverse().map(...)`. */
  function RowChoices(row: Row): (r: seq<Choice>)
    ensures |r| == |row.versions|
    ensures forall i :: 0 <= i < |r| ==>
              r[i] == (var v := row.versions[|row.versions| - 1 - i]; Choice(v, row.sha256, IsPrerelease(v)))
  {
    var n := |row.versions|;
    seq(n, i requires 0 <= i < n =>
      Choice(row.versions[n - 1 - i], row.sha256, IsPrerelease(row.versions[n - 1 - i])))
  }

  function ToChoices(rows: seq<Row>): seq<Choice> {
    if rows == [] then [] else RowChoices(rows[0]) + ToChoices(rows[1..])
  }

  const NEWER_CHOICE: (Choice, Choice) -> bool :=
    (a: Choice, b: Choice) => Compare(Parsed(a.version), Parsed(b.version)) >= 0

  lemma {:induction false} ChoiceMembers(rows: seq<Row>, u: string)
    ensures (exists c :: c in ToChoices(rows) && c.version == u)
       <==> exists p :: 0 <= p < |rows| && u in rows[p].versions
  {
    if rows != [] {
      ChoiceMembers(rows[1..], u);
      RowChoiceMembers(rows[0], u);
      if exists p :: 0 <= p < |rows| && u in rows[p].versions {
        var p :| 0 <= p < |rows| && u in rows[p].versions;
        assert p > 0 ==> u in rows[1..][p - 1].versions;
      }
      if exists p :: 0 <= p < |rows[1..]| && u in rows[1..][p].versions {
        var p :| 0 <= p < |rows[1..]| && u in rows[1..][p].versions;
        assert u in rows[p + 1].versions;
      }
    }
  }

  lemma RowChoiceMembers(row: Row, u: string)
    ensures (exists c :: c in RowChoices(row) && c.version == u) <==> u in row.versions
  {
    if u in row.versions {
      var i :| 0 <= i < |row.versions| && row.versions[i] == u;
      assert RowChoices(row)[|row.versions| - 1 - i].version == u;
    }
  }

  /** No version of a row is older than any version of a later row. */
  ghost predicate RowsDoNotOverlap(rows: seq<Row>) {
    forall p, q, u, w :: 0 <= p < q < |rows| && u in rows[p].versions && w in rows[q].versions ==>
      Compare(Parsed(u), Parsed(w)) >= 0
  }

  lemma {:induction false} ChoicesOrder(rows: seq<Row>, xs: seq<Shipped>)
    requires forall p :: 0 <= p < |rows| ==> RowLists(rows[p], xs)
    ensures Ordered(NEWER_CHOICE, ToChoices(rows)) <==> RowsDoNotOverlap(rows)
  {
    hide Compare, Parsed;
    if rows != [] {
      var mine, rest := RowChoices(rows[0]), ToChoices(rows[1..]);
      ChoicesOrder(rows[1..], xs);
      RowNewestFirst(rows[0], xs);
      OrderedConcat(mine, rest);
      CrossOrder(rows);
      OverlapSplits(rows);
    }
  }

  lemma RowNewestFirst(row: Row, xs: seq<Shipped>)
    requires RowLists(row, xs)
    ensures Ordered(NEWER_CHOICE, RowChoices(row))
  {
    hide Compare, Parsed;
    var n := |row.versions|;
    forall i, j | 0 <= i < j < n ensures NEWER_CHOICE(RowChoices(row)[i], RowChoices(row)[j]) {
      assert Compare(Parsed(row.versions[n - 1 - j]), Parsed(row.versions[n - 1 - i])) <= 0;
      CompareAntisymmetric(Parsed(row.versions[n - 1 - j]), Parsed(row.versions[n - 1 - i]));
    }
  }

  lemma OrderedConcat(a: seq<Choice>, b: seq<Choice>)
    ensures Ordered(NEWER_CHOICE, a + b) <==>
            Ordered(NEWER_CHOICE, a) && Ordered(NEWER_CHOICE, b) && forall c, d :: c in a && d in b ==> NEWER_CHOICE(c, d)
  {
    hide Compare, Parsed;
    var l := a + b;
    if Ordered(NEWER_CHOICE, l) {
      forall c, d | c in a && d in b ensures NEWER_CHOICE(c, d) {
        var i :| 0 <= i < |a| && a[i] == c;
        var j :| 0 <= j < |b| && b[j] == d;
        assert NEWER_CHOICE(l[i], l[|a| + j]);
      }
      forall i, j | 0 <= i < j < |a| ensures NEWER_CHOICE(a[i], a[j]) { assert NEWER_CHOICE(l[i], l[j]); }
      forall i, j | 0 <= i < j < |b| ensures NEWER_CHOICE(b[i], b[j]) { assert NEWER_CHOICE(l[|a| + i], l[|a| + j]); }
    }
  }

  /** The first row against the rest. */
  ghost predicate FirstAbove(rows: seq<Row>) {
    forall q, u, w :: 0 < q < |rows| && u in rows[0].versions && w in rows[q].versions ==>
      Compare(Parsed(u), Parsed(w)) >= 0
  }

  lemma CrossOrder(rows: seq<Row>)
    requires rows != []
    ensures (forall c, d :: c in RowChoices(rows[0]) && d in ToChoices(rows[1..]) ==> NEWER_CHOICE(c, d))
       <==> FirstAbove(rows)
  {
    hide Compare, Parsed, RowChoices, ToChoices;
    var mine, rest := RowChoices(rows[0]), ToChoices(rows[1..]);
    if forall c, d :: c in mine && d in rest ==> NEWER_CHOICE(c, d) {
      forall q, u, w | 0 < q < |rows| && u in rows[0].versions && w in rows[q].versions
        ensures Compare(Parsed(u), Parsed(w)) >= 0
      {
        RowChoiceMembers(rows[0], u);
        assert rows[1..][q - 1] == rows[q];
        ChoiceMembers(rows[1..], w);
        var c :| c in mine && c.version == u;
        var d :| d in rest && d.version == w;
        assert NEWER_CHOICE(c, d);
      }
    }
    if FirstAbove(rows) {
      forall c, d | c in mine && d in rest ensures NEWER_CHOICE(c, d) {
        RowChoiceMembers(rows[0], c.version);
        ChoiceMembers(rows[1..], d.version);
        var q :| 0 <= q < |rows[1..]| && d.version in rows[1..][q].versions;
        assert d.version in rows[q + 1].versions;
      }
    }
  }

  lemma OverlapSplits(rows: seq<Row>)
    requires rows != []
    ensures RowsDoNotOverlap(rows) <==> FirstAbove(rows) && RowsDoNotOverlap(rows[1..])
  {
    hide Compare, Parsed;
    var rest := rows[1..];
    if RowsDoNotOverlap(rows) {
      forall p, q, u, w | 0 <= p < q < |rest| && u in rest[p].versions && w in rest[q].versions
        ensures Compare(Parsed(u), Parsed(w)) >= 0
      {
        assert u in rows[p + 1].versions && w in rows[q + 1].versions;
      }
    }
    if FirstAbove(rows) && RowsDoNotOverlap(rest) {
      forall p, q, u, w | 0 <= p < q < |rows| && u in rows[p].versions && w in rows[q].versions
        ensures Compare(Parsed(u), Parsed(w)) >= 0
      {
        if p > 0 { assert u in rest[p - 1].versions && w in rest[q - 1].versions; }
      }
    }
  }

  /**
   * Every release whose specification first appeared (newest first) before
   * another's is at least as new as that other release.
   */
  ghost predicate SpecsDoNotInterleave(xs: seq<Shipped>) {
    forall x, y :: x in xs && y in xs && FirstAt(xs, x.hash) < FirstAt(xs, y.hash) ==> Compare(x.version, y.version) >= 0
  }

  lemma {:induction false} RowsList(xs: seq<Shipped>)
    requires FromSortedReleases(xs)
    ensures forall p :: 0 <= p < |Grouped(xs)| ==> RowLists(RowsOf(Grouped(xs))[p], xs)
  {
    hide Grouped, RowOf, Collects, FromSortedReleases, RowLists;
    GroupingPartitions(xs);
    forall p | 0 <= p < |Grouped(xs)| ensures RowLists(RowsOf(Grouped(xs))[p], xs) {
      GroupRow(Grouped(xs)[p], xs);
    }
  }

  /** Where a release is listed, and that rows are in order of first appearance. */
  lemma RowOfRelease(xs: seq<Shipped>, x: Shipped) returns (p: nat)
    requires FromSortedReleases(xs) && x in xs
    ensures p < |RowsOf(Grouped(xs))|
    ensures RowsOf(Grouped(xs))[p].sha256 == x.hash && x.version.version in RowsOf(Grouped(xs))[p].versions
  {
    hide Grouped, RowOf, Collects, Compare, Parse, FirstAt, FromSortedReleases;
    p := GroupIndex(Grouped(xs), x.hash);
    GroupingPartitions(xs);
    RowsList(xs);
    RowHash(Grouped(xs)[p]);
    assert RowLists(RowsOf(Grouped(xs))[p], xs);
  }

  lemma {:induction false} RowOrder(xs: seq<Shipped>, p: nat, q: nat)
    requires FromSortedReleases(xs) && p < |RowsOf(Grouped(xs))| && q < |RowsOf(Grouped(xs))|
    ensures var rows := RowsOf(Grouped(xs));
            p < q <==> FirstAt(xs, rows[p].sha256) < FirstAt(xs, rows[q].sha256)
  {
    hide Grouped, RowOf, Collects, FirstAt, FromSortedReleases;
    GroupingPartitions(xs);
    RowHash(Grouped(xs)[p]);
    RowHash(Grouped(xs)[q]);
  }

  lemma {:induction false} OverlapMeaning(xs: seq<Shipped>)
    requires FromSortedReleases(xs)
    ensures RowsDoNotOverlap(RowsOf(Grouped(xs))) <==> SpecsDoNotInterleave(xs)
  {
    hide Grouped, RowsOf, Compare, Parse, FirstAt, Ordered;
    var rows := RowsOf(Grouped(xs));
    if RowsDoNotOverlap(rows) {
      forall x, y | x in xs && y in xs && FirstAt(xs, x.hash) < FirstAt(xs, y.hash) ensures Compare(x.version, y.version) >= 0 {
        var p := RowOfRelease(xs, x);
        var q := RowOfRelease(xs, y);
        RowOrder(xs, p, q);
        assert Compare(Parsed(x.version.version), Parsed(y.version.version)) >= 0;
      }
    }
    if SpecsDoNotInterleave(xs) {
      RowsList(xs);
      forall p, q, u, w | 0 <= p < q < |rows| && u in rows[p].versions && w in rows[q].versions
        ensures Compare(Parsed(u), Parsed(w)) >= 0
      {
        RowCount(xs);
        assert RowLists(rows[p], xs) && RowLists(rows[q], xs);
        var x :| x in xs && x.hash == rows[p].sha256 && x.version.version == u;
        var y :| y in xs && y.hash == rows[q].sha256 && y.version.version == w;
        RowOrder(xs, p, q);
      }
    }
  }

  lemma {:induction false} RowCount(xs: seq<Shipped>)
    ensures |RowsOf(Grouped(xs))| == |Grouped(xs)|
  {
    hide Grouped;
  }

  lemma RowHash(g: Group)
    ensures RowOf(g).sha256 == g.sha256
  {
    hide Sort;
  }

  /** The picker is newest-first exactly when no specification's releases interleave with another's. */
  lemma {:induction false} PickerNewestFirst(xs: seq<Shipped>)
    requires FromSortedReleases(xs)
    ensures Ordered(NEWER_CHOICE, ToChoices(RowsOf(Grouped(xs)))) <==> SpecsDoNotInterleave(xs)
  {
    hide Grouped, RowsOf, ToChoices, RowLists, FromSortedReleases, Ordered, RowsDoNotOverlap, SpecsDoNotInterleave;
    RowsList(xs);
    ChoicesOrder(RowsOf(Grouped(xs)), xs);
    OverlapMeaning(xs);
  }

  /** The first choice is always a newest release, interleaved or not. */
  lemma {:induction false} PickerStartsNewest(xs: seq<Shipped>)
    requires FromSortedReleases(xs) && xs != []
    ensures var choices := ToChoices(RowsOf(Grouped(xs)));
            choices != [] && forall x :: x in xs ==> Compare(Parsed(choices[0].version), x.version) >= 0
  {
    hide Grouped, RowOf, Collects, Compare, Parse;
    var gs, rows := Grouped(xs), RowsOf(Grouped(xs));
    GroupingPartitions(xs);
    assert xs[0] in xs;
    assert |gs| > 0;
    RowsList(xs);
    assert RowLists(rows[0], xs);
    RowsArriveSorted(xs);
    assert ToChoices(rows)[0] == RowChoices(rows[0])[0];
    forall x | x in xs ensures Compare(Parsed(rows[0].latestVersion), x.version) >= 0 {
      var q := GroupIndex(gs, x.hash);
      LatestIsMaximal(gs[q], xs);
      if q > 0 {
        assert LATEST_FIRST(rows[0], rows[q]);
        NotOlder(Parsed(rows[0].latestVersion), Parsed(rows[q].latestVersion), x.version);
      }
    }
  }

  /** The specification of release `i` recurs at `k` after a different one at `j`. */
  ghost predicate Recurs(xs: seq<Shipped>, i: int, j: int, k: int) {
    0 <= i < j < k < |xs| && xs[i].hash == xs[k].hash && xs[j].hash != xs[i].hash
  }

  lemma {:induction false} FirstBefore(xs: seq<Shipped>, a: int)
    requires 0 <= a < |xs|
    ensures FirstAt(xs, xs[a].hash) <= a && xs[FirstAt(xs, xs[a].hash)].hash == xs[a].hash
  {
    hide FirstAt;
  }

  lemma {:induction false} FirstThenLater(xs: seq<Shipped>, a: int, b: int)
    requires 0 <= a < |xs| && 0 <= b < |xs| && FirstAt(xs, xs[a].hash) < FirstAt(xs, xs[b].hash)
    ensures a < b || Recurs(xs, FirstAt(xs, xs[a].hash), b, a)
  {
    FirstBefore(xs, a);
    FirstBefore(xs, b);
    var ha, hb := xs[a].hash, xs[b].hash;
    var f, g := FirstAt(xs, ha), FirstAt(xs, hb);
    assert ha != hb;
    hide FirstAt;
    assert a != b;
    assert 0 <= f < b && xs[f].hash == ha;
  }

  /** In particular when no specification recurs after a different one. */
  lemma ContiguousSpecs(xs: seq<Shipped>)
    requires FromSortedReleases(xs)
    requires forall i, j, k :: !Recurs(xs, i, j, k)
    ensures SpecsDoNotInterleave(xs)
  {
    hide Compare, Parse, FirstAt, Recurs;
    forall x, y | x in xs && y in xs && FirstAt(xs, x.hash) < FirstAt(xs, y.hash) ensures Compare(x.version, y.version) >= 0 {
      var a :| 0 <= a < |xs| && xs[a] == x;
      var b :| 0 <= b < |xs| && xs[b] == y;
      FirstThenLater(xs, a, b);
      if a < b { assert NEWEST_SHIPPED_FIRST(xs[a], xs[b]); } else { SelfCompare(x.version); }
    }
  }

  // -------------------------------------------------------- the default selection

  const IS_STABLE: Choice -> bool := (c: Choice) => !c.prerelease

  predicate StableRelease(x: Shipped) { '-' !in x.version.version }

  /** `all.find((c) => !c.prerelease) ?? all[0]`. */
  function Preferred(choices: seq<Choice>): Choice
    requires choices != []
  {
    var stable := Find(IS_STABLE, choices);
    if stable.Some? then stable.value else choices[0]
  }

  /** Row `p` is the first with a stable version, and `u` is the newest stable version in it. */
  ghost predicate LeadingStable(rows: seq<Row>, p: nat, u: string) {
    && p < |rows| && u in rows[p].versions && !IsPrerelease(u)
    && (forall q, w :: 0 <= q < p && w in rows[q].versions ==> IsPrerelease(w))
    && (forall w :: w in rows[p].versions && !IsPrerelease(w) ==> Compare(Parsed(u), Parsed(w)) >= 0)
  }

  lemma LeadingShift(rows: seq<Row>, p: nat, u: string)
    requires rows != [] && LeadingStable(rows[1..], p, u)
    requires forall w :: w in rows[0].versions ==> IsPrerelease(w)
    ensures LeadingStable(rows, p + 1, u)
  {
    hide Compare, Parsed, IsPrerelease;
    forall q, w | 0 <= q < p + 1 && w in rows[q].versions ensures IsPrerelease(w) {
      if q > 0 { assert w in rows[1..][q - 1].versions; }
    }
  }

  /** The first stable choice comes from the first row that has one and is the newest stable one there. */
  lemma {:induction false} FirstStableChoice(rows: seq<Row>, xs: seq<Shipped>, c: Choice) returns (p: nat)
    requires forall q :: 0 <= q < |rows| ==> RowLists(rows[q], xs)
    requires Find(IS_STABLE, ToChoices(rows)) == Some(c)
    ensures LeadingStable(rows, p, c.version)
  {
    hide Compare, Parsed, RowLists, RowChoices, Ordered;
    var mine, rest := RowChoices(rows[0]), ToChoices(rows[1..]);
    FindInConcat(mine, rest);
    if Find(IS_STABLE, mine).Some? {
      p := 0;
      RowNewestFirst(rows[0], xs);
      FirstStableInRow(rows[0], c);
    } else {
      var p' := FirstStableChoice(rows[1..], xs, c);
      forall w | w in rows[0].versions ensures IsPrerelease(w) { RowChoiceMembers(rows[0], w); }
      LeadingShift(rows, p', c.version);
      p := p' + 1;
    }
  }

  lemma {:induction false} FindInConcat(a: seq<Choice>, b: seq<Choice>)
    ensures Find(IS_STABLE, a + b) == if Find(IS_STABLE, a).Some? then Find(IS_STABLE, a) else Find(IS_STABLE, b)
  {
    if a == [] {
      assert a + b == b;
    } else {
      assert (a + b)[1..] == a[1..] + b;
      FindInConcat(a[1..], b);
    }
  }

  lemma FirstStableInRow(row: Row, c: Choice)
    requires Ordered(NEWER_CHOICE, RowChoices(row)) && Find(IS_STABLE, RowChoices(row)) == Some(c)
    ensures c.version in row.versions && !IsPrerelease(c.version)
    ensures forall u :: u in row.versions && !IsPrerelease(u) ==> Compare(Parsed(c.version), Parsed(u)) >= 0
  {
    hide Compare, Parsed;
    var cs := RowChoices(row);
    RowChoiceMembers(row, c.version);
    forall u | u in row.versions && !IsPrerelease(u) ensures Compare(Parsed(c.version), Parsed(u)) >= 0 {
      var i :| 0 <= i < |row.versions| && row.versions[i] == u;
      assert cs[|row.versions| - 1 - i].version == u;
      FoundBefore(cs, c, |row.versions| - 1 - i);
      SelfCompare(Parsed(u));
    }
  }

  lemma SelfCompare(v: ParsedVersion)
    ensures Compare(v, v) == 0
  {
    hide Compare;
    CompareAntisymmetric(v, v);
  }

  /** A found element stands no later than any other match. */
  lemma {:induction false} FoundBefore(cs: seq<Choice>, c: Choice, j: nat)
    requires Ordered(NEWER_CHOICE, cs) && Find(IS_STABLE, cs) == Some(c) && j < |cs| && IS_STABLE(cs[j])
    ensures cs[j] == c || NEWER_CHOICE(c, cs[j])
  {
    hide Compare, Parsed;
    if !IS_STABLE(cs[0]) {
      FoundBefore(cs[1..], c, j - 1);
    }
  }

  /** A newest stable release belongs to the first specification that any stable release shipped. */
  ghost predicate NewestStableLeads(xs: seq<Shipped>) {
    exists x :: x in xs && StableRelease(x) && Leads(xs, x)
  }

  ghost predicate Leads(xs: seq<Shipped>, x: Shipped) {
    forall y :: y in xs && StableRelease(y) ==>
      FirstAt(xs, x.hash) <= FirstAt(xs, y.hash) && Compare(x.version, y.version) >= 0
  }

  lemma StableTexts()
    ensures forall x :: StableRelease(x) <==> !IsPrerelease(x.version.version)
  {
  }

  /** The release behind the default choice: newest stable of the first specification that has one. */
  lemma DefaultRelease(xs: seq<Shipped>) returns (best: Shipped)
    requires FromSortedReleases(xs) && exists x :: x in xs && StableRelease(x)
    ensures ToChoices(RowsOf(Grouped(xs))) != []
    ensures best in xs && StableRelease(best)
    ensures Parsed(Preferred(ToChoices(RowsOf(Grouped(xs)))).version) == best.version
    ensures forall y :: y in xs && StableRelease(y) ==>
              FirstAt(xs, best.hash) <= FirstAt(xs, y.hash)
              && (y.hash == best.hash ==> Compare(best.version, y.version) >= 0)
  {
    hide Grouped, RowsOf, ToChoices, Compare, Parse, FirstAt, Ordered, StableRelease, IsPrerelease;
    StableTexts();
    var rows := RowsOf(Grouped(xs));
    RowsList(xs);
    RowCount(xs);
    var some :| some in xs && StableRelease(some);
    StableChoiceExists(xs, some);
    var c := Find(IS_STABLE, ToChoices(rows)).value;
    var p := FirstStableChoice(rows, xs, c);
    assert RowLists(rows[p], xs);
    best :| best in xs && best.hash == rows[p].sha256 && best.version.version == c.version;
    forall y | y in xs && StableRelease(y)
      ensures FirstAt(xs, best.hash) <= FirstAt(xs, y.hash)
      ensures y.hash == best.hash ==> Compare(best.version, y.version) >= 0
    {
      var q := RowOfRelease(xs, y);
      assert q >= p;
      RowOrder(xs, q, p);
      RowOrder(xs, p, q);
      assert y.hash == best.hash ==> p == q;
    }
  }

  lemma {:induction false} SameFirstSameHash(xs: seq<Shipped>, x: Shipped, y: Shipped)
    requires x in xs && y in xs && FirstAt(xs, x.hash) == FirstAt(xs, y.hash)
    ensures x.hash == y.hash
  {
    hide FirstAt;
    var i :| 0 <= i < |xs| && xs[i] == x;
    assert FirstAt(xs, x.hash) <= i;
  }

  /** With a stable release present, the page opens on a newest stable release exactly when such a release leads. */
  lemma {:induction false} DefaultIsNewestStable(xs: seq<Shipped>)
    requires FromSortedReleases(xs) && exists x :: x in xs && StableRelease(x)
    ensures ToChoices(RowsOf(Grouped(xs))) != []
    ensures (forall y :: y in xs && StableRelease(y) ==>
               Compare(Parsed(Preferred(ToChoices(RowsOf(Grouped(xs)))).version), y.version) >= 0)
       <==> NewestStableLeads(xs)
  {
    hide Grouped, RowsOf, ToChoices, Compare, Parse, FirstAt, Ordered, Preferred, Parsed;
    var best := DefaultRelease(xs);
    if NewestStableLeads(xs) {
      var x :| x in xs && StableRelease(x) && Leads(xs, x);
      SameFirstSameHash(xs, x, best);
      forall y | y in xs && StableRelease(y) ensures Compare(best.version, y.version) >= 0 {
        NotOlder(best.version, x.version, y.version);
      }
    }
    if forall y :: y in xs && StableRelease(y) ==> Compare(best.version, y.version) >= 0 {
      assert Leads(xs, best);
    }
  }

  lemma {:induction false} StableChoiceExists(xs: seq<Shipped>, x: Shipped)
    requires FromSortedReleases(xs) && x in xs && StableRelease(x)
    ensures Find(IS_STABLE, ToChoices(RowsOf(Grouped(xs)))).Some?
  {
    hide Grouped, RowsOf, ToChoices, FromSortedReleases;
    var p := RowOfRelease(xs, x);
    var rows := RowsOf(Grouped(xs));
    ChoiceMembers(rows, x.version.version);
    var c :| c in ToChoices(rows) && c.version == x.version.version;
    ChoiceFlag(rows, c);
  }

  lemma {:induction false} ChoiceFlag(rows: seq<Row>, c: Choice)
    requires c in ToChoices(rows)
    ensures c.prerelease == IsPrerelease(c.version)
  {
    if c in RowChoices(rows[0]) {
    } else {
      ChoiceFlag(rows[1..], c);
    }
  }

  // ------------------------------------------------ where the sorted outcomes come from

  /** What a release's assets and its checksum fetch deliver: the document's link and its hash. */
  datatype Spec = Spec(url: string, hash: string)

  /** `fetch` is `None` for a release without the assets or whose checksum could not be read. */
  function Outcome(fetch: Release -> Option<Spec>, e: Entry): Option<Shipped> {
    var spec := fetch(e.release);
    if spec.None? then None
    else Some(Shipped(e.version, spec.value.url, spec.value.hash, e.release.prerelease))
  }

  /** One fetch per release, in the order of the releases. */
  function Outcomes(fetch: Release -> Option<Spec>, entries: seq<Entry>): seq<Option<Shipped>> {
    if entries == [] then [] else Outcomes(fetch, entries[..|entries| - 1]) + [Outcome(fetch, entries[|entries| - 1])]
  }

  /** The successful releases, newest first. */
  function ShippedSpecs(fetch: Release -> Option<Spec>, releases: seq<Release>): seq<Shipped> {
    Settled(Outcomes(fetch, Sort(NEWEST_FIRST, WithVersions(releases))))
  }

  method BuildOpenapiVersions(releases: seq<Release>, fetch: Release -> Option<Spec>) returns (rows: seq<Row>)
    ensures rows == RowsOf(Grouped(ShippedSpecs(fetch, releases)))
    ensures Ordered(LATEST_FIRST, rows)
  {
    hide Grouped, Outcomes, Sort, WithVersions, Manifests.Settled, FromSortedReleases, LATEST_FIRST;
    var ordered := Sort(NEWEST_FIRST, WithVersions(releases));
    rows := BuildRows(Outcomes(fetch, ordered));
    ReleasesArriveSorted(releases, fetch);
    RowsArriveSorted(ShippedSpecs(fetch, releases));
  }

  lemma {:induction false} OutcomesSnoc(fetch: Release -> Option<Spec>, entries: seq<Entry>, e: Entry)
    ensures Settled(Outcomes(fetch, entries + [e]))
         == Settled(Outcomes(fetch, entries)) + (if Outcome(fetch, e).Some? then [Outcome(fetch, e).value] else [])
  {
    hide Outcome;
    var outs := Outcomes(fetch, entries);
    assert (entries + [e])[..|entries + [e]| - 1] == entries;
    assert (outs + [Outcome(fetch, e)])[..|outs + [Outcome(fetch, e)]| - 1] == outs;
  }

  lemma {:induction false} SettledMembers(fetch: Release -> Option<Spec>, front: seq<Entry>, e: Entry)
    requires forall x :: x in Settled(Outcomes(fetch, front)) ==> exists d :: d in front && d.version == x.version
    ensures forall x :: x in Settled(Outcomes(fetch, front + [e])) ==> exists d :: d in front + [e] && d.version == x.version
  {
    hide Outcomes, Manifests.Settled;
    OutcomesSnoc(fetch, front, e);
    forall x | x in Settled(Outcomes(fetch, front + [e])) ensures exists d :: d in front + [e] && d.version == x.version {
      if x in Settled(Outcomes(fetch, front)) {
        var d :| d in front && d.version == x.version;
        assert d in front + [e];
      } else {
        assert e in front + [e] && e.version == x.version;
      }
    }
  }

  lemma {:induction false} SettledInOrder(fetch: Release -> Option<Spec>, entries: seq<Entry>)
    requires Ordered(NEWEST_FIRST, entries)
    ensures Ordered(NEWEST_SHIPPED_FIRST, Settled(Outcomes(fetch, entries)))
    ensures forall x :: x in Settled(Outcomes(fetch, entries)) ==> exists e :: e in entries && e.version == x.version
  {
    hide Compare;
    if entries != [] {
      var front, e := entries[..|entries| - 1], entries[|entries| - 1];
      SettledInOrder(fetch, front);
      OutcomesSnoc(fetch, front, e);
      assert entries == front + [e];
      forall x | x in Settled(Outcomes(fetch, front)) ensures Compare(x.version, e.version) >= 0 {
        var d :| d in front && d.version == x.version;
        var i :| 0 <= i < |front| && front[i] == d;
        assert NEWEST_FIRST(entries[i], entries[|entries| - 1]);
      }
      SettledMembers(fetch, front, e);
    }
  }

  /** Whatever fetches succeed, the shipped specifications are the newest-first releases the grouping expects. */
  lemma ReleasesArriveSorted(releases: seq<Release>, fetch: Release -> Option<Spec>)
    ensures FromSortedReleases(ShippedSpecs(fetch, releases))
  {
    hide Compare, Parse, Sort, TotalPreorder, WithVersions, Outcomes, Manifests.Settled;
    var entries := WithVersions(releases);
    var sorted := Sort(NEWEST_FIRST, entries);
    NewestFirstIsPreorder();
    SortIsStable(NEWEST_FIRST, entries);
    SettledInOrder(fetch, sorted);
    forall x | x in Settled(Outcomes(fetch, sorted)) ensures Parse(x.version.version) == Some(x.version) {
      var e :| e in sorted && e.version == x.version;
      assert e in multiset(sorted) && e in multiset(entries);
      EntryParsed(releases, e);
      ReparseExact(e.release.tagName);
    }
  }

  // --------------------------------------------------------- an interleaved picker

  function OneDigit(n: nat): ParsedVersion
    requires n <= 9
  { ParsedVersion(Print(n), [n], []) }

  /** The specification of version 3 came back in version 1. */
  const INTERLEAVED: seq<Shipped> :=
    [Shipped(OneDigit(3), "u", "a", false), Shipped(OneDigit(2), "u", "b", false), Shipped(OneDigit(1), "u", "a", false)]

  lemma {:induction false} OneDigitParses(n: nat)
    requires n <= 9
    ensures Parse(Print(n)) == Some(OneDigit(n))
  {
    var t := Print(n);
    assert |t| == 1 && IsDigit(t[0]);
    StripLeavesDigits(t);
    assert '+' !in t && '-' !in t && '.' !in t;
    assert Split(t, '.') == [t];
    assert Values([t]) == [NumeralValue(t)];
  }

  lemma OneDigitOrder(m: nat, n: nat)
    requires m <= 9 && n <= 9
    ensures Compare(OneDigit(m), OneDigit(n)) == m as int - n as int
  {
    assert Rest([m]) == [] && Rest([n]) == [];
    assert CompareParts([], []) == 0;
  }

  lemma InterleavedSorted()
    ensures FromSortedReleases(INTERLEAVED)
  {
    hide Compare, Parse, OneDigit, Print;
    OneDigitParses(3); OneDigitParses(2); OneDigitParses(1);
    OneDigitTexts();
    OneDigitOrder(3, 2); OneDigitOrder(3, 1); OneDigitOrder(2, 1);
  }

  /** The picker then lists version 1 above version 2. */
  lemma PickerCanBeOutOfOrder()
    ensures FromSortedReleases(INTERLEAVED)
    ensures !Ordered(NEWER_CHOICE, ToChoices(RowsOf(Grouped(INTERLEAVED))))
  {
    hide Compare, Parse, OneDigit, Ordered, Grouped, RowsOf, ToChoices;
    var xs := INTERLEAVED;
    InterleavedSorted();
    PickerNewestFirst(xs);
    OneDigitOrder(1, 2);
    assert xs[2] in xs && xs[1] in xs;
    assert FirstAt(xs, "a") == 0;
    assert FirstAt(xs, "b") > 0;
  }

  lemma OneDigitTexts()
    ensures forall n: nat :: n <= 9 ==> OneDigit(n).version == Print(n)
  {
  }

  // --------------------------------------------------------- an older default choice

  const THREE_BETA: ParsedVersion := ParsedVersion("3-beta", [3], ["beta"])

  /** The specification of the pre-release 3-beta came back in version 1. */
  const BETA_ABOVE: seq<Shipped> :=
    [Shipped(THREE_BETA, "u", "a", true), Shipped(OneDigit(2), "u", "b", false), Shipped(OneDigit(1), "u", "a", false)]

  lemma BetaParses()
    ensures Parse("3-beta") == Some(THREE_BETA)
  {
    hide Parse, Split;
    var w := Written("", ["3"], "-beta", "");
    assert IsNumeral("3") && Value("3") == 3 by { assert "3"[..0] == ""; }
    assert '.' !in "beta";
    SplitOfJoin(["beta"], '.');
    ParseWritten(w);
    assert BareText(w) == "3-beta" && TagText(w) == "3-beta" && w.dash[1..] == "beta";
    assert Values(["3"]) == [3];
  }

  lemma BetaOrder(n: nat)
    requires n < 3
    ensures Compare(THREE_BETA, OneDigit(n)) > 0
  {
  }

  lemma BetaSorted()
    ensures FromSortedReleases(BETA_ABOVE)
  {
    hide Compare, Parse, OneDigit, Print;
    BetaParses();
    OneDigitParses(2); OneDigitParses(1);
    OneDigitTexts();
    BetaOrder(2); BetaOrder(1);
    OneDigitOrder(2, 1);
  }

  lemma OneDigitStable(n: nat)
    requires n <= 9
    ensures !IsPrerelease(OneDigit(n).version)
  {
  }

  /** The page then opens on version 1 although version 2 is a stable release. */
  lemma DefaultCanBeOlder()
    ensures FromSortedReleases(BETA_ABOVE)
    ensures StableRelease(BETA_ABOVE[1]) && BETA_ABOVE[1].version == OneDigit(2)
    ensures var choices := ToChoices(RowsOf(Grouped(BETA_ABOVE)));
            choices != [] && Parsed(Preferred(choices).version) == OneDigit(1)
    ensures Compare(OneDigit(1), OneDigit(2)) < 0
  {
    hide Compare, Parse, OneDigit, Ordered, Grouped, RowsOf, ToChoices, Preferred, Parsed;
    var xs := BETA_ABOVE;
    BetaSorted();
    OneDigitStable(1);
    OneDigitStable(2);
    OneDigitOrder(1, 2);
    assert IsPrerelease("3-beta") by { assert "3-beta"[1] == '-'; }
    assert xs[0] in xs && xs[1] in xs && xs[2] in xs;
    assert StableRelease(xs[1]) && StableRelease(xs[2]);
    var best := DefaultRelease(xs);
    assert FirstAt(xs, "a") == 0;
    assert FirstAt(xs, "b") > 0;
    assert FirstAt(xs, best.hash) <= FirstAt(xs, xs[2].hash);
  }

  // ----------------------------------------------- what is shipped, linked and listed

  /** A row links the newest release of its specification and is marked when any of them is a pre-release. */
  lemma {:induction false} RowLink(g: Group, xs: seq<Shipped>)
    requires Collects(g, xs)
    ensures FirstAt(xs, RowOf(g).sha256) < |xs| && RowOf(g).openapiUrl == xs[FirstAt(xs, RowOf(g).sha256)].url
    ensures RowOf(g).includesPrerelease
       <==> exists x :: x in xs && x.hash == RowOf(g).sha256 && (x.prerelease || x.version.prerelease != [])
  {
    hide Sort, FirstAt;
    CollectsFirst(g, xs);
    var mine := Of(xs, g.sha256);
    if AnyPre(mine) {
      var i :| 0 <= i < |mine| && IsPre(mine[i]);
      assert mine[i] in mine && mine[i] in xs;
    }
    if x :| x in xs && x.hash == g.sha256 && (x.prerelease || x.version.prerelease != []) {
      assert x in mine;
      var i :| 0 <= i < |mine| && mine[i] == x;
      assert IsPre(mine[i]);
    }
  }

  /** What a release ships: published, with a tag that parses and a fetch that succeeded. */
  ghost predicate Ships(fetch: Release -> Option<Spec>, r: Release, x: Shipped) {
    && !r.draft && Parse(r.tagName).Some? && fetch(r).Some?
    && x == Shipped(Parse(r.tagName).value, fetch(r).value.url, fetch(r).value.hash, r.prerelease)
  }

  lemma {:induction false} SettledExactly(fetch: Release -> Option<Spec>, entries: seq<Entry>, x: Shipped)
    ensures x in Settled(Outcomes(fetch, entries)) <==> exists e :: e in entries && Outcome(fetch, e) == Some(x)
  {
    hide Outcome, Outcomes, Manifests.Settled;
    if entries == [] {
      assert Settled(Outcomes(fetch, [])) == [] by { NothingSettled(fetch); }
    } else {
      var front, last := entries[..|entries| - 1], entries[|entries| - 1];
      assert entries == front + [last];
      SettledExactly(fetch, front, x);
      OutcomesSnoc(fetch, front, last);
      assert forall e :: e in entries <==> e in front || e == last;
    }
  }

  lemma NothingSettled(fetch: Release -> Option<Spec>)
    ensures Settled(Outcomes(fetch, [])) == []
  {
  }

  /** Exactly the published, parseable releases whose fetch succeeded are shipped. */
  lemma ShippedExactly(fetch: Release -> Option<Spec>, releases: seq<Release>, x: Shipped)
    ensures x in ShippedSpecs(fetch, releases) <==> exists r :: r in releases && Ships(fetch, r, x)
  {
    hide Parse, Sort, WithVersions, Outcomes, Manifests.Settled;
    var entries := WithVersions(releases);
    var sorted := Sort(NEWEST_FIRST, entries);
    SettledExactly(fetch, sorted, x);
    assert forall e :: e in sorted <==> e in multiset(sorted);
    assert forall e :: e in entries <==> e in multiset(entries);
    if e :| e in sorted && Outcome(fetch, e) == Some(x) {
      EntryParsed(releases, e);
      assert Ships(fetch, e.release, x);
    }
    if r :| r in releases && Ships(fetch, r, x) {
      var e := Entry(r, Parse(r.tagName).value);
      EntryPresent(releases, r);
      assert e in sorted && Outcome(fetch, e) == Some(x);
    }
  }

  lemma {:induction false} ChoicesExactly(rows: seq<Row>, c: Choice)
    ensures c in ToChoices(rows)
       <==> c.prerelease == ('-' in c.version) && exists p :: 0 <= p < |rows| && c.sha256 == rows[p].sha256 && c.version in rows[p].versions
  {
    if rows != [] {
      ChoicesExactly(rows[1..], c);
      OwnChoices(rows[0], c);
      if p :| 0 <= p < |rows| && c.sha256 == rows[p].sha256 && c.version in rows[p].versions {
        assert p > 0 ==> rows[1..][p - 1] == rows[p];
      }
      if p :| 0 <= p < |rows[1..]| && c.sha256 == rows[1..][p].sha256 && c.version in rows[1..][p].versions {
        assert rows[p + 1] == rows[1..][p];
      }
    }
  }

  lemma OwnChoices(row: Row, c: Choice)
    ensures c in RowChoices(row)
       <==> c.prerelease == ('-' in c.version) && c.sha256 == row.sha256 && c.version in row.versions
  {
    var cs := RowChoices(row);
    if c.prerelease == ('-' in c.version) && c.sha256 == row.sha256 && c.version in row.versions {
      var i :| 0 <= i < |row.versions| && row.versions[i] == c.version;
      assert cs[|row.versions| - 1 - i] == c;
    }
  }

  /** The picker offers exactly the shipped versions, each with the specification it shipped. */
  lemma {:induction false} ChoicesServeShipped(xs: seq<Shipped>, c: Choice)
    requires FromSortedReleases(xs)
    ensures c in ToChoices(RowsOf(Grouped(xs)))
       <==> c.prerelease == ('-' in c.version) && exists x :: x in xs && x.hash == c.sha256 && x.version.version == c.version
  {
    hide Grouped, RowsOf, ToChoices, Compare, Parse, FromSortedReleases;
    var rows := RowsOf(Grouped(xs));
    ChoicesExactly(rows, c);
    RowsList(xs);
    RowCount(xs);
    if p :| 0 <= p < |rows| && c.sha256 == rows[p].sha256 && c.version in rows[p].versions {
      assert RowLists(rows[p], xs);
    }
    if x :| x in xs && x.hash == c.sha256 && x.version.version == c.version {
      var p := RowOfRelease(xs, x);
    }
  }

  /** Without a stable release the page opens on the newest of all. */
  lemma {:induction false} DefaultWithoutStable(xs: seq<Shipped>)
    requires FromSortedReleases(xs) && xs != [] && forall x :: x in xs ==> !StableRelease(x)
    ensures ToChoices(RowsOf(Grouped(xs))) != []
    ensures forall x :: x in xs ==> Compare(Parsed(Preferred(ToChoices(RowsOf(Grouped(xs)))).version), x.version) >= 0
  {
    hide Grouped, RowsOf, ToChoices, Compare, Parse, FromSortedReleases, Parsed;
    PickerStartsNewest(xs);
    var choices := ToChoices(RowsOf(Grouped(xs)));
    forall c | c in choices ensures !IS_STABLE(c) { ChoicesServeShipped(xs, c); }
  }
}
