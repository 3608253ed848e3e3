// Which release each update channel offers.
module Channels {
  import opened Text
  import opened Sorting
  import opened Versions

  /** A GitHub release: the fields classification reads, and its page as identity. */
  datatype Release = Release(tagName: string, prerelease: bool, draft: bool, htmlUrl: string)

  datatype Entry = Entry(release: Release, version: ParsedVersion)

  predicate IsEdgeVersion(v: ParsedVersion) { v.prerelease != [] && v.prerelease[0] == "edge" }

  /** The published releases whose tag parses, with their versions, in input order. */
  function WithVersions(releases: seq<Release>): seq<Entry> {
    if releases == [] then []
    else
      var r, rest := releases[0], WithVersions(releases[1..]);
      var v := Parse(r.tagName);
      if !r.draft && v.Some? then [Entry(r, v.value)] + rest else rest
  }

  /** Descending by version precedence. */
  const NEWEST_FIRST: (Entry, Entry) -> bool := (a: Entry, b: Entry) => Compare(a.version, b.version) >= 0

  const STABLE: Entry -> bool :=
    (e: Entry) => !IsEdgeVersion(e.version) && !e.release.prerelease && e.version.prerelease == []

  const BETA: Entry -> bool := (e: Entry) => !IsEdgeVersion(e.version)

  const EDGE: Entry -> bool := (e: Entry) => IsEdgeVersion(e.version)

  function ReleaseOf(e: Option<Entry>): Option<Release> { if e.Some? then Some(e.value.release) else None }

  method ClassifyChannels(releases: seq<Release>)
    returns (stable: Option<Release>, beta: Option<Release>, edge: Option<Release>)
    ensures Offers(releases, STABLE, stable) && NewestOf(releases, OnStable, stable)
    ensures Offers(releases, BETA, beta) && NewestOf(releases, OnBeta, beta)
    ensures Offers(releases, EDGE, edge) && NewestOf(releases, OnEdge, edge)
  {
    var withVersions := Sort(NEWEST_FIRST, WithVersions(releases));
    stable := ReleaseOf(Find(STABLE, withVersions));
    beta := ReleaseOf(Find(BETA, withVersions));
    edge := ReleaseOf(Find(EDGE, withVersions));
    NewestFirstIsPreorder();
    FindOffers(releases, STABLE);
    FindOffers(releases, BETA);
    FindOffers(releases, EDGE);
    OffersNewest(releases, STABLE, OnStable, stable);
    OffersNewest(releases, BETA, OnBeta, beta);
    OffersNewest(releases, EDGE, OnEdge, edge);
  }

  // ------------------------------------------------------ the channels on the releases

  /** A published release without a pre-release mark on the release or in its tag. */
  ghost predicate OnStable(r: Release) {
    !r.draft && !r.prerelease && Parse(r.tagName).Some? && Parse(r.tagName).value.prerelease == []
  }

  /** A published release whose label does not start with `edge`. */
  ghost predicate OnBeta(r: Release) {
    && !r.draft && Parse(r.tagName).Some?
    && var labels := Parse(r.tagName).value.prerelease;
       labels == [] || labels[0] != "edge"
  }

  /** A published release whose label starts with `edge`. */
  ghost predicate OnEdge(r: Release) {
    && !r.draft && Parse(r.tagName).Some?
    && var labels := Parse(r.tagName).value.prerelease;
       labels != [] && labels[0] == "edge"
  }

  ghost predicate TagAtLeast(r: Release, s: Release) {
    Parse(r.tagName).Some? && Parse(s.tagName).Some? && Compare(Parse(r.tagName).value, Parse(s.tagName).value) >= 0
  }

  /** Position `k` holds a newest release of the channel, and no equally new one stands before it. */
  ghost predicate FirstNewest(releases: seq<Release>, on: Release -> bool, k: int) {
    && 0 <= k < |releases| && on(releases[k])
    && (forall j :: 0 <= j < |releases| && on(releases[j]) ==> TagAtLeast(releases[k], releases[j]))
    && (forall j :: 0 <= j < k && on(releases[j]) ==> !TagAtLeast(releases[j], releases[k]))
  }

  ghost predicate NewestOf(releases: seq<Release>, on: Release -> bool, pick: Option<Release>) {
    if pick.None? then forall r :: r in releases ==> !on(r)
    else exists k :: FirstNewest(releases, on, k) && releases[k] == pick.value
  }

  /** The entry of a published release whose tag parses. */
  lemma {:induction false} EntryPresent(releases: seq<Release>, r: Release)
    requires r in releases && !r.draft && Parse(r.tagName).Some?
    ensures Entry(r, Parse(r.tagName).value) in WithVersions(releases)
  {
    hide Parse;
    if r != releases[0] { EntryPresent(releases[1..], r); }
  }

  /** The entries before an entry are those of the releases before its release. */
  lemma {:induction false} EntryPosition(releases: seq<Release>, i: nat) returns (k: nat)
    requires i < |WithVersions(releases)|
    ensures k < |releases| && releases[k] == WithVersions(releases)[i].release
    ensures WithVersions(releases[..k]) == WithVersions(releases)[..i]
  {
    hide Parse;
    var r, rest := releases[0], releases[1..];
    var v := Parse(r.tagName);
    if !r.draft && v.Some? {
      if i == 0 {
        k := 0;
      } else {
        var p := EntryPosition(rest, i - 1);
        k := p + 1;
        assert releases[..k][1..] == rest[..p] && releases[..k][0] == r;
      }
    } else {
      var p := EntryPosition(rest, i);
      k := p + 1;
      assert releases[..k][1..] == rest[..p] && releases[..k][0] == r;
    }
  }

  /** The offer among the entries is the newest release of the channel. */
  lemma OffersNewest(releases: seq<Release>, p: Entry -> bool, on: Release -> bool, pick: Option<Release>)
    requires Offers(releases, p, pick)
    requires forall r :: on(r) <==> !r.draft && Parse(r.tagName).Some? && p(Entry(r, Parse(r.tagName).value))
    ensures NewestOf(releases, on, pick)
  {
    hide WithVersions, Parse, Compare;
    var entries := WithVersions(releases);
    if pick.None? {
      forall r | r in releases ensures !on(r) {
        if on(r) { EntryPresent(releases, r); }
      }
    } else {
      var i :| IsLeftmostLeast(NEWEST_FIRST, p, entries, i) && entries[i].release == pick.value;
      var k := EntryPosition(releases, i);
      EntryParsed(releases, entries[i]);
      forall j | 0 <= j < |releases| && on(releases[j])
        ensures TagAtLeast(releases[k], releases[j])
        ensures j < k ==> !TagAtLeast(releases[j], releases[k])
      {
        var e := Entry(releases[j], Parse(releases[j].tagName).value);
        EntryPresent(releases, releases[j]);
        assert NEWEST_FIRST(entries[i], e);
        if j < k {
          assert releases[..k][j] == releases[j];
          EntryPresent(releases[..k], releases[j]);
          var m :| 0 <= m < |entries[..i]| && entries[..i][m] == e;
          assert !NEWEST_FIRST(entries[m], entries[i]);
        }
      }
      assert FirstNewest(releases, on, k);
    }
  }

  /**
   * `pick` is the newest release satisfying `p`, the first of them in input
   * order when several compare equal; `None` exactly when no release does.
   */
  ghost predicate Offers(releases: seq<Release>, p: Entry -> bool, pick: Option<Release>) {
    var entries := WithVersions(releases);
    if pick.None? then forall e :: e in entries ==> !p(e)
    else exists i :: IsLeftmostLeast(NEWEST_FIRST, p, entries, i) && entries[i].release == pick.value
  }

  lemma NewestFirstIsPreorder()
    ensures TotalPreorder(NEWEST_FIRST)
  {
    hide Compare;
    forall x: Entry, y: Entry ensures NEWEST_FIRST(x, y) || NEWEST_FIRST(y, x) {
      CompareAntisymmetric(x.version, y.version);
    }
    forall x: Entry, y: Entry, z: Entry | NEWEST_FIRST(x, y) && NEWEST_FIRST(y, z) ensures NEWEST_FIRST(x, z) {
      CompareAntisymmetric(x.version, y.version);
      CompareAntisymmetric(y.version, z.version);
      CompareAntisymmetric(x.version, z.version);
      CompareTransitive(z.version, y.version, x.version);
    }
  }

  lemma {:induction false} FindOffers(releases: seq<Release>, p: Entry -> bool)
    requires TotalPreorder(NEWEST_FIRST)
    ensures Offers(releases, p, ReleaseOf(Find(p, Sort(NEWEST_FIRST, WithVersions(releases)))))
  {
    hide TotalPreorder, Sort, IsLeftmostLeast, WithVersions;
    FindInSort(NEWEST_FIRST, p, WithVersions(releases));
    LeastWhereMeaning(NEWEST_FIRST, p, WithVersions(releases));
  }

  /** At most one release is offered: the pick is determined by the releases. */
  lemma OfferUnique(releases: seq<Release>, p: Entry -> bool, a: Option<Release>, b: Option<Release>)
    requires Offers(releases, p, a) && Offers(releases, p, b)
    ensures a == b
  {
    hide WithVersions;
    var entries := WithVersions(releases);
    if a.Some? && b.Some? {
      var i :| IsLeftmostLeast(NEWEST_FIRST, p, entries, i) && entries[i].release == a.value;
      var j :| IsLeftmostLeast(NEWEST_FIRST, p, entries, j) && entries[j].release == b.value;
      assert i == j;
    }
  }

  /** A box on stable is never ahead of beta: beta exists and is at least as new. */
  lemma StableAtMostBeta(releases: seq<Release>, stable: Option<Release>, beta: Option<Release>)
    requires Offers(releases, STABLE, stable) && Offers(releases, BETA, beta) && stable.Some?
    ensures beta.Some?
    ensures Parse(stable.value.tagName).Some? && Parse(beta.value.tagName).Some?
    ensures Compare(Parse(stable.value.tagName).value, Parse(beta.value.tagName).value) <= 0
  {
    hide WithVersions, Compare, Parse;
    var entries := WithVersions(releases);
    var i :| IsLeftmostLeast(NEWEST_FIRST, STABLE, entries, i) && entries[i].release == stable.value;
    assert BETA(entries[i]) && entries[i] in entries;
    var j :| IsLeftmostLeast(NEWEST_FIRST, BETA, entries, j) && entries[j].release == beta.value;
    EntryParsed(releases, entries[i]);
    EntryParsed(releases, entries[j]);
    assert NEWEST_FIRST(entries[j], entries[i]);
    CompareAntisymmetric(entries[i].version, entries[j].version);
  }

  lemma {:induction false} EntryParsed(releases: seq<Release>, e: Entry)
    requires e in WithVersions(releases)
    ensures Parse(e.release.tagName) == Some(e.version) && !e.release.draft && e.release in releases
  {
    hide Parse;
    if e in WithVersions(releases[1..]) { EntryParsed(releases[1..], e); }
  }

  // ------------------------------------------------------------------ edge builds

  predicate IsEdgeRelease(r: Release) {
    var v := Parse(r.tagName);
    v.Some? && IsEdgeVersion(v.value)
  }

  const NOT_EDGE_RELEASE: Release -> bool := (r: Release) => !IsEdgeRelease(r)

  lemma {:induction false} EntriesWithoutEdges(releases: seq<Release>)
    ensures WithVersions(Filter(NOT_EDGE_RELEASE, releases)) == Filter(BETA, WithVersions(releases))
  {
    hide Parse, IsEdgeVersion;
    if releases != [] {
      var r, rest := releases[0], releases[1..];
      EntriesWithoutEdges(rest);
      var kept := Filter(NOT_EDGE_RELEASE, rest);
      assert ([r] + kept)[1..] == kept;
      if !r.draft && Parse(r.tagName).Some? {
        var e, es := Entry(r, Parse(r.tagName).value), WithVersions(rest);
        assert ([e] + es)[1..] == es;
      }
    }
  }

  /**
   * Publishing edge builds never moves stable or beta: lists that agree once
   * edge releases are taken out, wherever they stood, offer the same releases.
   */
  lemma {:induction false} EdgeBuildsDoNotMove(a: seq<Release>, b: seq<Release>, p: Entry -> bool, pa: Option<Release>, pb: Option<Release>)
    requires Filter(NOT_EDGE_RELEASE, a) == Filter(NOT_EDGE_RELEASE, b)
    requires forall e :: p(e) ==> BETA(e)
    requires Offers(a, p, pa) && Offers(b, p, pb)
    ensures pa == pb
  {
    hide Offers, TotalPreorder, Sort, Filter, WithVersions, BETA;
    NewestFirstIsPreorder();
    FindOffers(a, p);
    FindOffers(b, p);
    OfferUnique(a, p, pa, ReleaseOf(Find(p, Sort(NEWEST_FIRST, WithVersions(a)))));
    OfferUnique(b, p, pb, ReleaseOf(Find(p, Sort(NEWEST_FIRST, WithVersions(b)))));
    FindInSort(NEWEST_FIRST, p, WithVersions(a));
    FindInSort(NEWEST_FIRST, p, WithVersions(b));
    LeastWhereFilter(NEWEST_FIRST, p, BETA, WithVersions(a));
    LeastWhereFilter(NEWEST_FIRST, p, BETA, WithVersions(b));
    EntriesWithoutEdges(a);
    EntriesWithoutEdges(b);
  }

  /** Why edge has to be excluded: every edge build outranks every beta of its base. */
  lemma {:induction false} EdgeOutranksBeta(parts: seq<nat>, run: nat, beta: nat, x: string, y: string)
    ensures Compare(ParsedVersion(x, parts, ["edge", Print(run)]), ParsedVersion(y, parts, ["beta", Print(beta)])) > 0
  {
    PartsZero(parts, parts);
    assert !IsNumeral("edge") && !IsNumeral("beta") by {
      assert !IsDigit("edge"[0]) && !IsDigit("beta"[0]);
    }
    assert CompareIdentifiers("edge", "beta") == 1;
  }
}
