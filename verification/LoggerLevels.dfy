// Log levels by dotted tag: the search for the longest overridden prefix, the
// memo in front of it, and the invalidation that keeps the memo truthful.
module LoggerLevels {
  import opened Text

  datatype Level = Silent | Error | Warn | Info | Debug

  // -------------------------------------------------------------- the uncached search

  /** The level of the longest of the first `i` joined prefixes that has an override. */
  function Search(overrides: map<string, Level>, parts: seq<string>, i: nat): Level
    requires i <= |parts|
  {
    if i == 0 then Info
    else if Join(parts[..i], '.') in overrides then overrides[Join(parts[..i], '.')]
    else Search(overrides, parts, i - 1)
  }

  function Uncached(overrides: map<string, Level>, tag: string): Level {
    Search(overrides, Split(tag, '.'), |Split(tag, '.')|)
  }

  /** `tag` is `t` or one of its ancestors: the test the invalidation uses. */
  predicate Covers(tag: string, t: string) { t == tag || StartsWith(t, tag + ".") }

  ghost predicate IsJoinedPrefix(tag: string, t: string, i: int) {
    0 < i <= |Split(t, '.')| && Join(Split(t, '.')[..i], '.') == tag
  }

  lemma {:induction false} JoinedPrefixText(parts: seq<string>, i: nat)
    requires 0 < i < |parts|
    ensures Join(parts, '.') == Join(parts[..i], '.') + "." + Join(parts[i..], '.')
  {
    JoinAppend(parts[..i], parts[i..], '.');
    assert parts[..i] + parts[i..] == parts;
  }

  lemma CoversWhenPrefix(tag: string, t: string, i: int)
    requires IsJoinedPrefix(tag, t, i)
    ensures Covers(tag, t)
  {
    var parts := Split(t, '.');
    if i == |parts| {
      assert parts[..i] == parts;
    } else {
      JoinedPrefixText(parts, i);
      assert t[..|tag + "."|] == tag + ".";
    }
  }

  lemma PrefixWhenCovers(tag: string, t: string) returns (i: int)
    requires Covers(tag, t)
    ensures IsJoinedPrefix(tag, t, i)
  {
    if t == tag {
      i := |Split(t, '.')|;
      assert Split(t, '.')[..i] == Split(t, '.');
    } else {
      var rest := t[|tag| + 1..];
      var a, b := Split(tag, '.'), Split(rest, '.');
      assert t == tag + "." + rest by {
        assert t == t[..|tag| + 1] + rest;
      }
      JoinAppend(a, b, '.');
      SplitOfJoin(a + b, '.');
      assert Split(t, '.') == a + b;
      i := |a|;
      assert (a + b)[..i] == a;
    }
  }

  /**
   * A tag is one of the prefixes the search tries exactly when the invalidation
   * would recognise it, for every string, empty segments included.
   */
  lemma PrefixesAreCovers(tag: string, t: string)
    ensures (exists i :: IsJoinedPrefix(tag, t, i)) <==> Covers(tag, t)
  {
    if exists i :: IsJoinedPrefix(tag, t, i) {
      var i :| IsJoinedPrefix(tag, t, i);
      CoversWhenPrefix(tag, t, i);
    }
    if Covers(tag, t) {
      var i := PrefixWhenCovers(tag, t);
    }
  }

  // ---------------------------------------------------- what the search computes

  /** `p` is the longest overridden ancestor of `t`. */
  ghost predicate IsLongest(overrides: map<string, Level>, t: string, p: string) {
    p in overrides && Covers(p, t) && forall q :: q in overrides && Covers(q, t) ==> |q| <= |p|
  }

  lemma LongerPrefix(parts: seq<string>, i: nat, j: nat)
    requires 0 < i <= j <= |parts|
    ensures |Join(parts[..i], '.')| <= |Join(parts[..j], '.')|
  {
    if i < j {
      JoinedPrefixText(parts[..j], i);
      assert parts[..j][..i] == parts[..i];
    }
  }

  lemma {:induction false} SearchFinds(overrides: map<string, Level>, parts: seq<string>, i: nat)
    requires i <= |parts|
    ensures if exists k :: 0 < k <= i && Join(parts[..k], '.') in overrides
            then exists k :: 0 < k <= i && Join(parts[..k], '.') in overrides
                          && Search(overrides, parts, i) == overrides[Join(parts[..k], '.')]
                          && forall j :: k < j <= i ==> Join(parts[..j], '.') !in overrides
            else Search(overrides, parts, i) == Info
  {
    if i > 0 && Join(parts[..i], '.') !in overrides { SearchFinds(overrides, parts, i - 1); }
  }

  /** The search yields the level of the longest overridden ancestor, `Info` when there is none. */
  lemma UncachedIsLongest(overrides: map<string, Level>, t: string)
    ensures if exists p :: p in overrides && Covers(p, t)
            then exists p :: IsLongest(overrides, t, p) && Uncached(overrides, t) == overrides[p]
            else Uncached(overrides, t) == Info
  {
    hide Search, Join, Split, Covers;
    var parts := Split(t, '.');
    SearchFinds(overrides, parts, |parts|);
    if exists p :: p in overrides && Covers(p, t) {
      var p :| p in overrides && Covers(p, t);
      PrefixesAreCovers(p, t);
      var i :| IsJoinedPrefix(p, t, i);
      assert Join(parts[..i], '.') in overrides;
      var k :| 0 < k <= |parts| && Join(parts[..k], '.') in overrides
               && Search(overrides, parts, |parts|) == overrides[Join(parts[..k], '.')]
               && forall j :: k < j <= |parts| ==> Join(parts[..j], '.') !in overrides;
      var best := Join(parts[..k], '.');
      assert IsJoinedPrefix(best, t, k);
      PrefixesAreCovers(best, t);
      forall q | q in overrides && Covers(q, t) ensures |q| <= |best| {
        PrefixesAreCovers(q, t);
        var j :| IsJoinedPrefix(q, t, j);
        LongerPrefix(parts, j, k);
      }
      assert IsLongest(overrides, t, best);
    } else {
      forall k | 0 < k <= |parts| ensures Join(parts[..k], '.') !in overrides {
        assert IsJoinedPrefix(Join(parts[..k], '.'), t, k);
        PrefixesAreCovers(Join(parts[..k], '.'), t);
      }
    }
  }

  // ---------------------------------------------------------------- cache coherence

  /** Every memoised level is what the search would find now. */
  ghost predicate Coherent(overrides: map<string, Level>, resolved: map<string, Level>) {
    forall t :: t in resolved ==> resolved[t] == Uncached(overrides, t)
  }

  lemma {:induction false} SearchUnaffected(overrides: map<string, Level>, tag: string, level: Level, parts: seq<string>, i: nat)
    requires i <= |parts| && forall k :: 0 < k <= i ==> Join(parts[..k], '.') != tag
    ensures Search(overrides[tag := level], parts, i) == Search(overrides, parts, i)
  {
    hide Join;
    if i > 0 {
      assert Join(parts[..i], '.') != tag;
      SearchUnaffected(overrides, tag, level, parts, i - 1);
    }
  }

  /** Setting a level changes nothing for the tags the invalidation leaves alone. */
  lemma UnrelatedUnaffected(overrides: map<string, Level>, tag: string, level: Level, t: string)
    requires !Covers(tag, t)
    ensures Uncached(overrides[tag := level], t) == Uncached(overrides, t)
  {
    hide Join, Split, Covers;
    var parts := Split(t, '.');
    forall k | 0 < k <= |parts| ensures Join(parts[..k], '.') != tag {
      PrefixesAreCovers(tag, t);
      assert Join(parts[..k], '.') == tag ==> IsJoinedPrefix(tag, t, k);
    }
    SearchUnaffected(overrides, tag, level, parts, |parts|);
  }

  /** The memo entries that survive `setLevel(tag, ...)`. */
  function Invalidated(resolved: map<string, Level>, tag: string): map<string, Level> {
    map t | t in resolved && !Covers(tag, t) :: resolved[t]
  }

  /** Setting a level forgets the tag and what lies below it, and nothing else. */
  lemma InvalidatedExactly(resolved: map<string, Level>, tag: string, t: string)
    ensures t in Invalidated(resolved, tag) <==> t in resolved && forall i :: !IsJoinedPrefix(tag, t, i)
    ensures t in Invalidated(resolved, tag) ==> Invalidated(resolved, tag)[t] == resolved[t]
  {
    hide Covers, IsJoinedPrefix;
    PrefixesAreCovers(tag, t);
  }

  lemma SetKeepsCoherent(overrides: map<string, Level>, resolved: map<string, Level>, tag: string, level: Level)
    requires Coherent(overrides, resolved)
    ensures Coherent(overrides[tag := level], Invalidated(resolved, tag))
  {
    hide Uncached, Covers;
    forall t | t in resolved && !Covers(tag, t) ensures resolved[t] == Uncached(overrides[tag := level], t) {
      UnrelatedUnaffected(overrides, tag, level, t);
    }
  }

  class LevelRegistry {
    var overrides: map<string, Level>
    var resolved: map<string, Level>

    ghost predicate Valid()
      reads this
    { Coherent(overrides, resolved) }

    constructor ()
      ensures Valid() && overrides == map[] && resolved == map[]
    {
      overrides, resolved := map[], map[];
    }

    method ResolveLevel(tag: string) returns (level: Level)
      requires Valid()
      modifies this`resolved
      ensures Valid()
      ensures level == Uncached(overrides, tag)
      ensures resolved == old(resolved)[tag := level]
    {
      hide Join, Split;
      if tag in resolved { return resolved[tag]; }
      var parts := Split(tag, '.');
      level := Info;
      var i := |parts|;
      while i > 0
        invariant 0 <= i <= |parts|
        invariant level == Info
        invariant Uncached(overrides, tag) == Search(overrides, parts, i)
      {
        var prefix := Join(parts[..i], '.');
        if prefix in overrides {
          level := overrides[prefix];
          break;
        }
        i := i - 1;
      }
      resolved := resolved[tag := level];
    }

    method SetLevel(tag: string, level: Level)
      requires Valid()
      modifies this
      ensures Valid()
      ensures overrides == old(overrides)[tag := level]
      ensures resolved == Invalidated(old(resolved), tag)
    {
      hide Uncached, Covers;
      SetKeepsCoherent(overrides, resolved, tag, level);
      overrides := overrides[tag := level];
      var keys, left := resolved.Keys, resolved;
      while keys != {}
        invariant keys <= resolved.Keys
        invariant left.Keys <= resolved.Keys && forall t :: t in left ==> left[t] == resolved[t]
        invariant forall t :: t in resolved ==> (t in left <==> t in keys || !Covers(tag, t))
        decreases keys
      {
        var t :| t in keys;
        if Covers(tag, t) { left := left - {t}; }
        keys := keys - {t};
      }
      resolved := left;
    }
  }

  // ---------------------------------------------------------- any interleaving at all

  datatype Call = Resolve(tag: string) | Set(tag: string, level: Level)

  datatype Registry = Registry(overrides: map<string, Level>, resolved: map<string, Level>)

  function After(r: Registry, c: Call): Registry {
    match c
    case Resolve(tag) =>
      if tag in r.resolved then r
      else r.(resolved := r.resolved[tag := Uncached(r.overrides, tag)])
    case Set(tag, level) => Registry(r.overrides[tag := level], Invalidated(r.resolved, tag))
  }

  function AfterAll(calls: seq<Call>): Registry {
    if calls == [] then Registry(map[], map[]) else After(AfterAll(calls[..|calls| - 1]), calls[|calls| - 1])
  }

  /** The overrides alone, without any memo. */
  function Settings(calls: seq<Call>): map<string, Level> {
    if calls == [] then map[]
    else
      var front, c := Settings(calls[..|calls| - 1]), calls[|calls| - 1];
      if c.Set? then front[c.tag := c.level] else front
  }

  /** After any interleaving of calls every memo entry is what the settings alone dictate. */
  lemma {:induction false} CacheAlwaysCoherent(calls: seq<Call>)
    ensures AfterAll(calls).overrides == Settings(calls)
    ensures Coherent(Settings(calls), AfterAll(calls).resolved)
  {
    hide Uncached, Covers, Invalidated;
    if calls != [] {
      var front, c := calls[..|calls| - 1], calls[|calls| - 1];
      CacheAlwaysCoherent(front);
      if c.Set? { SetKeepsCoherent(Settings(front), AfterAll(front).resolved, c.tag, c.level); }
    }
  }
}
