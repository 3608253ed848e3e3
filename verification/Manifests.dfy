// The list of distinct API specifications: releases grouped by the hash of the
// specification they shipped, and the version picker built from that list.
module Manifests {
  import opened Text
  import opened Versions

  /** A release whose specification assets were found and whose hash was fetched. */
  datatype Shipped = Shipped(version: ParsedVersion, url: string, hash: string, prerelease: bool)

  datatype Group = Group(sha256: string, openapiUrl: string, versions: seq<ParsedVersion>, includesPrerelease: bool)

  datatype Row = Row(
    sha256: string, openapiUrl: string, versions: seq<string>, firstVersion: string, latestVersion: string,
    includesPrerelease: bool)

  // ----------------------------------------------------------------------- grouping

  predicate IsPre(x: Shipped) { x.prerelease || x.version.prerelease != [] }

  /** Index of the group for `hash`, or the number of groups. */
  function GroupIndex(groups: seq<Group>, hash: string): (i: nat)
    ensures i <= |groups|
    ensures i < |groups| ==> groups[i].sha256 == hash
    ensures forall j :: 0 <= j < i ==> groups[j].sha256 != hash
  {
    if groups == [] then 0
    else if groups[0].sha256 == hash then 0
    else 1 + GroupIndex(groups[1..], hash)
  }

  function Extended(g: Group, x: Shipped): Group {
    g.(versions := g.versions + [x.version], includesPrerelease := g.includesPrerelease || IsPre(x))
  }

  function NewGroup(x: Shipped): Group { Group(x.hash, x.url, [x.version], IsPre(x)) }

  /** One turn of the loop over the settled fetches. */
  function AddTo(groups: seq<Group>, x: Shipped): seq<Group> {
    var i := GroupIndex(groups, x.hash);
    if i < |groups| then groups[i := Extended(groups[i], x)] else groups + [NewGroup(x)]
  }

  function Grouped(xs: seq<Shipped>): seq<Group> {
    if xs == [] then [] else AddTo(Grouped(xs[..|xs| - 1]), xs[|xs| - 1])
  }

  /** The rejected fetches are skipped. */
  function Settled(outcomes: seq<Option<Shipped>>): seq<Shipped> {
    if outcomes == [] then []
    else
      var front, last := Settled(outcomes[..|outcomes| - 1]), outcomes[|outcomes| - 1];
      if last.Some? then front + [last.value] else front
  }

  method GroupBySpec(outcomes: seq<Option<Shipped>>) returns (groups: seq<Group>)
    ensures groups == Grouped(Settled(outcomes))
  {
    hide Grouped, AddTo;
    groups := [];
    assert groups == Grouped(Settled(outcomes[..0])) by { GroupedEmpty(); }
    var i := 0;
    while i < |outcomes|
      invariant 0 <= i <= |outcomes|
      invariant groups == Grouped(Settled(outcomes[..i]))
    {
      assert outcomes[..i + 1][..i] == outcomes[..i];
      if outcomes[i].Some? {
        var x := outcomes[i].value;
        GroupedSnoc(Settled(outcomes[..i]), x);
        AddToCases(groups, x);
        var k := GroupIndex(groups, x.hash);
        if k < |groups| {
          groups := groups[k := groups[k].(versions := groups[k].versions + [x.version],
                                           includesPrerelease := groups[k].includesPrerelease || IsPre(x))];
        } else {
          groups := groups + [Group(x.hash, x.url, [x.version], IsPre(x))];
        }
      }
      i := i + 1;
    }
    assert outcomes[..i] == outcomes;
  }

  lemma GroupedEmpty()
    ensures Grouped([]) == []
  {
  }

  lemma {:induction false} GroupedSnoc(xs: seq<Shipped>, x: Shipped)
    ensures Grouped(xs + [x]) == AddTo(Grouped(xs), x)
  {
    assert (xs + [x])[..|xs + [x]| - 1] == xs;
  }

  lemma {:induction false} AddToCases(groups: seq<Group>, x: Shipped)
    ensures var i := GroupIndex(groups, x.hash);
            AddTo(groups, x) == if i < |groups| then groups[i := Extended(groups[i], x)] else groups + [NewGroup(x)]
  {
  }

  // ---------------------------------------------------------- what the groups hold

  /** The releases that shipped `hash`, in order. */
  function Of(xs: seq<Shipped>, hash: string): (r: seq<Shipped>)
    ensures forall x :: x in r <==> x in xs && x.hash == hash
  {
    if xs == [] then []
    else if xs[|xs| - 1].hash == hash then Of(xs[..|xs| - 1], hash) + [xs[|xs| - 1]]
    else Of(xs[..|xs| - 1], hash)
  }

  function VersionsOf(xs: seq<Shipped>): (r: seq<ParsedVersion>)
    ensures |r| == |xs|
    ensures forall i :: 0 <= i < |xs| ==> r[i] == xs[i].version
  {
    seq(|xs|, i requires 0 <= i < |xs| => xs[i].version)
  }

  predicate AnyPre(xs: seq<Shipped>) { exists i :: 0 <= i < |xs| && IsPre(xs[i]) }

  /** `g` collects exactly the releases of its hash; its link is the first one's. */
  predicate Collects(g: Group, xs: seq<Shipped>) {
    var mine := Of(xs, g.sha256);
    && mine != []
    && g.versions == VersionsOf(mine)
    && g.openapiUrl == mine[0].url
    && g.includesPrerelease == AnyPre(mine)
  }

  /** Position at which `hash` first occurs, or the length. */
  function FirstAt(xs: seq<Shipped>, hash: string): (i: nat)
    ensures i <= |xs|
    ensures i < |xs| ==> xs[i].hash == hash
    ensures forall j :: 0 <= j < i ==> xs[j].hash != hash
  {
    if xs == [] then 0
    else if xs[0].hash == hash then 0
    else 1 + FirstAt(xs[1..], hash)
  }

  lemma {:induction false} FirstAtSnoc(xs: seq<Shipped>, x: Shipped, hash: string)
    ensures FirstAt(xs + [x], hash)
         == if FirstAt(xs, hash) < |xs| then FirstAt(xs, hash)
            else if x.hash == hash then |xs| else |xs| + 1
  {
    var l, i := xs + [x], FirstAt(xs, hash);
    assert forall j :: 0 <= j < |xs| ==> l[j] == xs[j];
    assert l[|xs|] == x;
  }

  /** Groups are distinct, cover every release and stand in order of first appearance. */
  ghost predicate GroupsOk(groups: seq<Group>, xs: seq<Shipped>) {
    && (forall i :: 0 <= i < |groups| ==> Collects(groups[i], xs))
    && (forall i, j :: 0 <= i < j < |groups| ==>
          FirstAt(xs, groups[i].sha256) < FirstAt(xs, groups[j].sha256) < |xs|)
    && (forall x :: x in xs ==> GroupIndex(groups, x.hash) < |groups|)
  }

  lemma {:induction false} FirstAtAbsent(xs: seq<Shipped>, hash: string)
    requires forall x :: x in xs ==> x.hash != hash
    ensures FirstAt(xs, hash) == |xs|
  {
    if xs != [] { FirstAtAbsent(xs[1..], hash); }
  }

  lemma {:induction false} OfAbsent(xs: seq<Shipped>, hash: string)
    requires forall x :: x in xs ==> x.hash != hash
    ensures Of(xs, hash) == []
  {
    if xs != [] { OfAbsent(xs[..|xs| - 1], hash); }
  }

  lemma {:induction false} CollectsFirst(g: Group, xs: seq<Shipped>)
    requires Collects(g, xs)
    ensures FirstAt(xs, g.sha256) < |xs|
    ensures xs[FirstAt(xs, g.sha256)] == Of(xs, g.sha256)[0]
  {
    hide AnyPre;
    assert Of(xs, g.sha256)[0] in xs;
    FirstOf(xs, g.sha256);
  }

  lemma {:induction false} FirstOf(xs: seq<Shipped>, hash: string)
    requires Of(xs, hash) != []
    ensures FirstAt(xs, hash) < |xs| && Of(xs, hash)[0] == xs[FirstAt(xs, hash)]
  {
    var front, x := xs[..|xs| - 1], xs[|xs| - 1];
    assert xs == front + [x];
    FirstAtSnoc(front, x, hash);
    if Of(front, hash) != [] {
      FirstOf(front, hash);
    } else {
      FirstAtAbsent(front, hash);
    }
  }

  lemma {:induction false} OfSnoc(xs: seq<Shipped>, x: Shipped, hash: string)
    ensures Of(xs + [x], hash) == if x.hash == hash then Of(xs, hash) + [x] else Of(xs, hash)
  {
    assert (xs + [x])[..|xs + [x]| - 1] == xs;
  }

  lemma CollectsSnoc(g: Group, xs: seq<Shipped>, x: Shipped)
    requires Collects(g, xs)
    ensures Collects(if g.sha256 == x.hash then Extended(g, x) else g, xs + [x])
  {
    OfSnoc(xs, x, g.sha256);
    var mine := Of(xs, g.sha256);
    assert VersionsOf(mine + [x]) == VersionsOf(mine) + [x.version];
    AnyPreSnoc(mine, x);
  }

  lemma AnyPreSnoc(xs: seq<Shipped>, x: Shipped)
    ensures AnyPre(xs + [x]) == (AnyPre(xs) || IsPre(x))
  {
    if AnyPre(xs) {
      var i :| 0 <= i < |xs| && IsPre(xs[i]);
      assert IsPre((xs + [x])[i]);
    }
    if IsPre(x) { assert IsPre((xs + [x])[|xs|]); }
  }

  lemma {:induction false} NewGroupCollects(xs: seq<Shipped>, x: Shipped)
    requires Of(xs, x.hash) == []
    ensures Collects(NewGroup(x), xs + [x])
  {
    hide Of, AnyPre, VersionsOf;
    OfSnoc(xs, x, x.hash);
    assert Of(xs + [x], x.hash) == [x];
    assert AnyPre([x]) == IsPre(x) by { AnyPreOne(x); }
    assert VersionsOf([x]) == [x.version];
  }

  lemma AnyPreOne(x: Shipped)
    ensures AnyPre([x]) == IsPre(x)
  {
    hide IsPre;
    assert IsPre(x) ==> IsPre([x][0]);
  }

  /** Hashes of the groups do not change where a group is extended. */
  lemma {:induction false} IndexByHash(a: seq<Group>, b: seq<Group>, hash: string)
    requires |a| <= |b| && forall i :: 0 <= i < |a| ==> a[i].sha256 == b[i].sha256
    ensures GroupIndex(a, hash) < |a| ==> GroupIndex(b, hash) < |b|
  {
    var i := GroupIndex(a, hash);
    assert i < |a| ==> b[i].sha256 == hash;
  }

  lemma {:induction false} GroupingPartitions(xs: seq<Shipped>)
    ensures GroupsOk(Grouped(xs), xs)
  {
    if xs != [] {
      var front, x := xs[..|xs| - 1], xs[|xs| - 1];
      assert xs == front + [x];
      GroupingPartitions(front);
      AddKeepsGroupsOk(Grouped(front), front, x);
    }
  }

  /** Adding a release leaves every other group's collection and first appearance alone. */
  lemma {:induction false} AddToOne(gs: seq<Group>, xs: seq<Shipped>, x: Shipped, i: int)
    requires GroupsOk(gs, xs) && 0 <= i < |gs|
    ensures i < |AddTo(gs, x)| && AddTo(gs, x)[i].sha256 == gs[i].sha256
    ensures Collects(AddTo(gs, x)[i], xs + [x])
    ensures FirstAt(xs + [x], gs[i].sha256) == FirstAt(xs, gs[i].sha256) < |xs|
  {
    hide Collects, FirstAt, Of;
    CollectsSnoc(gs[i], xs, x);
    CollectsFirst(gs[i], xs);
    FirstAtSnoc(xs, x, gs[i].sha256);
    if gs[i].sha256 == x.hash { SameGroup(gs, xs, i, GroupIndex(gs, x.hash)); }
  }

  lemma AddCovers(gs: seq<Group>, xs: seq<Shipped>, x: Shipped)
    requires GroupsOk(gs, xs)
    ensures forall y :: y in xs + [x] ==> GroupIndex(AddTo(gs, x), y.hash) < |AddTo(gs, x)|
  {
    hide Collects, FirstAt;
    var hs, k := AddTo(gs, x), GroupIndex(gs, x.hash);
    assert hs[k].sha256 == x.hash;
    forall y | y in xs + [x] ensures GroupIndex(hs, y.hash) < |hs| {
      IndexByHash(gs, hs, y.hash);
    }
  }

  lemma AddKeepsGroupsOk(gs: seq<Group>, xs: seq<Shipped>, x: Shipped)
    requires GroupsOk(gs, xs)
    ensures GroupsOk(AddTo(gs, x), xs + [x])
  {
    hide Collects, FirstAt, Of, AddTo, GroupIndex;
    var all, hs := xs + [x], AddTo(gs, x);
    AddToCases(gs, x);
    AddCovers(gs, xs, x);
    forall i | 0 <= i < |gs|
      ensures i < |hs| && hs[i].sha256 == gs[i].sha256 && Collects(hs[i], all)
      ensures FirstAt(all, gs[i].sha256) == FirstAt(xs, gs[i].sha256) < |xs|
    {
      AddToOne(gs, xs, x, i);
    }
    if GroupIndex(gs, x.hash) == |gs| {
      NothingShipped(gs, xs, x.hash);
      NewGroupCollects(xs, x);
      FirstAtSnoc(xs, x, x.hash);
    }
  }

  lemma {:induction false} SameGroup(gs: seq<Group>, xs: seq<Shipped>, i: int, k: int)
    requires GroupsOk(gs, xs) && 0 <= i < |gs| && k == GroupIndex(gs, gs[i].sha256)
    ensures i == k
  {
    hide Collects, FirstAt;
  }

  lemma {:induction false} NothingShipped(gs: seq<Group>, xs: seq<Shipped>, hash: string)
    requires GroupsOk(gs, xs) && GroupIndex(gs, hash) == |gs|
    ensures Of(xs, hash) == [] && FirstAt(xs, hash) == |xs|
  {
    hide Collects;
    FirstAtAbsent(xs, hash);
    OfAbsent(xs, hash);
  }

  /** All the versions of all the groups. */
  function AllVersions(groups: seq<Group>): multiset<ParsedVersion> {
    if groups == [] then multiset{} else multiset(groups[0].versions) + AllVersions(groups[1..])
  }

  lemma {:induction false} ExtendedVersions(groups: seq<Group>, i: nat, x: Shipped)
    requires i < |groups|
    ensures AllVersions(groups[i := Extended(groups[i], x)]) == AllVersions(groups) + multiset{x.version}
  {
    var hs := groups[i := Extended(groups[i], x)];
    if i == 0 {
      assert hs[1..] == groups[1..];
      assert multiset(hs[0].versions) == multiset(groups[0].versions) + multiset{x.version};
    } else {
      ExtendedVersions(groups[1..], i - 1, x);
      assert hs[1..] == groups[1..][i - 1 := Extended(groups[1..][i - 1], x)];
    }
  }

  lemma {:induction false} AppendedVersions(groups: seq<Group>, x: Shipped)
    ensures AllVersions(groups + [NewGroup(x)]) == AllVersions(groups) + multiset{x.version}
  {
    if groups == [] {
      assert groups + [NewGroup(x)] == [NewGroup(x)];
      assert [NewGroup(x)][1..] == [];
      assert AllVersions([]) == multiset{};
    } else {
      assert (groups + [NewGroup(x)])[1..] == groups[1..] + [NewGroup(x)];
      AppendedVersions(groups[1..], x);
    }
  }

  lemma {:induction false} AddedVersion(groups: seq<Group>, x: Shipped)
    ensures AllVersions(AddTo(groups, x)) == AllVersions(groups) + multiset{x.version}
  {
    hide AllVersions;
    var i := GroupIndex(groups, x.hash);
    if i < |groups| { ExtendedVersions(groups, i, x); } else { AppendedVersions(groups, x); }
  }

  lemma EmptyVersions()
    ensures AllVersions([]) == multiset{}
  {
  }

  /** No release is lost or listed twice. */
  lemma {:induction false} GroupingConserves(xs: seq<Shipped>)
    ensures AllVersions(Grouped(xs)) == multiset(VersionsOf(xs))
  {
    hide AllVersions, AddTo, VersionsOf;
    if xs == [] {
      EmptyVersions();
    } else {
      var front, x := xs[..|xs| - 1], xs[|xs| - 1];
      GroupingConserves(front);
      AddedVersion(Grouped(front), x);
      assert VersionsOf(xs) == VersionsOf(front) + [x.version];
    }
  }
}
