// Recognising a stored port list as one of the known service bundles, whatever
// order its ports were stored in.
module PortKeys {
  import opened Text
  import opened Sorting

  datatype Proto = Tcp | Udp

  datatype PortSpec = PortSpec(proto: Proto, from: nat, to: nat)

  function ProtoText(p: Proto): string { if p.Tcp? then "tcp" else "udp" }

  function PortText(p: PortSpec): string {
    ProtoText(p.proto) + [':'] + (Print(p.from) + ['-'] + Print(p.to))
  }

  function PortTexts(ports: seq<PortSpec>): (r: seq<string>)
    ensures |r| == |ports|
    ensures forall i :: 0 <= i < |ports| ==> r[i] == PortText(ports[i])
  {
    seq(|ports|, i requires 0 <= i < |ports| => PortText(ports[i]))
  }

  const TEXT_ORDER: (string, string) -> bool := (a: string, b: string) => AtMost(a, b)

  function PortsKey(ports: seq<PortSpec>): string { Join(Sort(TEXT_ORDER, PortTexts(ports)), ',') }

  // --------------------------------------------------------- the text of one port

  lemma {:induction false} PrintInjective(m: nat, n: nat)
    requires Print(m) == Print(n)
    ensures m == n
  {
    assert Value(Print(m)) == m && Value(Print(n)) == n;
  }

  lemma {:induction false} DigitsLack(n: nat, c: char)
    requires !IsDigit(c)
    ensures c !in Print(n)
  {
  }

  /** Two texts with the same first separator have the same parts around it. */
  lemma SplitsAlike(a: string, b: string, a': string, b': string, c: char)
    requires c !in a && c !in a' && a + [c] + b == a' + [c] + b'
    ensures a == a' && b == b'
  {
    FirstIndexUnique(a, b, c);
    FirstIndexUnique(a', b', c);
    var s := a + [c] + b;
    assert s[..|a|] == a && s[..|a'|] == a';
    assert s[|a| + 1..] == b && s[|a'| + 1..] == b';
  }

  lemma PortTextInjective(p: PortSpec, q: PortSpec)
    requires PortText(p) == PortText(q)
    ensures p == q
  {
    hide Print;
    SplitsAlike(ProtoText(p.proto), Print(p.from) + ['-'] + Print(p.to),
                ProtoText(q.proto), Print(q.from) + ['-'] + Print(q.to), ':');
    DigitsLack(p.from, '-');
    DigitsLack(q.from, '-');
    SplitsAlike(Print(p.from), Print(p.to), Print(q.from), Print(q.to), '-');
    PrintInjective(p.from, q.from);
    PrintInjective(p.to, q.to);
    assert ProtoText(Tcp)[0] != ProtoText(Udp)[0];
  }

  lemma PortTextShape(p: PortSpec)
    ensures PortText(p) != "" && ',' !in PortText(p)
  {
    hide Print;
    DigitsLack(p.from, ',');
    DigitsLack(p.to, ',');
  }

  // ---------------------------------------------------------- lists as multisets

  /** Each port text occurs as often as its port. */
  lemma {:induction false} TextCounts(ports: seq<PortSpec>, p: PortSpec)
    ensures multiset(PortTexts(ports))[PortText(p)] == multiset(ports)[p]
  {
    hide PortText;
    if ports != [] {
      var front, last := ports[..|ports| - 1], ports[|ports| - 1];
      TextCounts(front, p);
      assert ports == front + [last];
      assert PortTexts(ports) == PortTexts(front) + [PortText(last)];
      if PortText(last) == PortText(p) { PortTextInjective(last, p); }
    }
  }

  lemma SameTexts(a: seq<PortSpec>, b: seq<PortSpec>)
    ensures multiset(PortTexts(a)) == multiset(PortTexts(b)) <==> multiset(a) == multiset(b)
  {
    hide PortText;
    if multiset(PortTexts(a)) == multiset(PortTexts(b)) {
      forall p ensures multiset(a)[p] == multiset(b)[p] {
        TextCounts(a, p);
        TextCounts(b, p);
      }
    }
    if multiset(a) == multiset(b) {
      forall t ensures multiset(PortTexts(a))[t] == multiset(PortTexts(b))[t] {
        TextOccurs(a, b, t);
        TextOccurs(b, a, t);
      }
    }
  }

  lemma TextOccurs(a: seq<PortSpec>, b: seq<PortSpec>, t: string)
    requires multiset(a) == multiset(b)
    ensures t in PortTexts(a) ==> multiset(PortTexts(a))[t] == multiset(PortTexts(b))[t]
    ensures t !in PortTexts(a) ==> multiset(PortTexts(a))[t] == 0
  {
    hide PortText;
    if t in PortTexts(a) {
      var i :| 0 <= i < |a| && PortTexts(a)[i] == t;
      TextCounts(a, a[i]);
      TextCounts(b, a[i]);
    }
  }

  lemma TextOrderFacts()
    ensures TotalPreorder(TEXT_ORDER) && NoTies()
  {
    hide Less;
    forall x: string, y: string ensures TEXT_ORDER(x, y) || TEXT_ORDER(y, x) { LessTotal(x, y); }
    forall x: string, y: string, z: string | TEXT_ORDER(x, y) && TEXT_ORDER(y, z) ensures TEXT_ORDER(x, z) {
      if x != y && y != z { LessTransitive(x, y, z); }
    }
    forall x: string, y: string | TEXT_ORDER(x, y) && TEXT_ORDER(y, x) ensures x == y {
      if Less(x, y) && Less(y, x) {
        LessTransitive(x, y, x);
        LessIrreflexive(x);
      }
    }
  }

  ghost predicate NoTies() { forall x, y :: TEXT_ORDER(x, y) && TEXT_ORDER(y, x) ==> x == y }

  lemma LeastFirst(a: seq<string>, x: string)
    requires Ordered(TEXT_ORDER, a) && x in a && TotalPreorder(TEXT_ORDER)
    ensures TEXT_ORDER(a[0], x)
  {
    hide AtMost;
  }

  lemma SameHead(a: seq<string>, b: seq<string>)
    requires Ordered(TEXT_ORDER, a) && Ordered(TEXT_ORDER, b) && multiset(a) == multiset(b)
    requires TotalPreorder(TEXT_ORDER) && NoTies() && a != [] && b != []
    ensures a[0] == b[0] && multiset(a[1..]) == multiset(b[1..])
  {
    hide AtMost, TotalPreorder, Ordered;
    assert a == [a[0]] + a[1..] && b == [b[0]] + b[1..];
    assert a[0] in multiset(b) && b[0] in multiset(a);
    LeastFirst(b, a[0]);
    LeastFirst(a, b[0]);
    assert multiset(a[1..]) == multiset(a) - multiset{a[0]};
    assert multiset(b[1..]) == multiset(b) - multiset{b[0]};
  }

  /** Sorting by an order without ties gives one sequence per multiset. */
  lemma {:induction false} OrderedUnique(a: seq<string>, b: seq<string>)
    requires Ordered(TEXT_ORDER, a) && Ordered(TEXT_ORDER, b) && multiset(a) == multiset(b)
    requires TotalPreorder(TEXT_ORDER) && NoTies()
    ensures a == b
  {
    hide AtMost, TotalPreorder, NoTies;
    assert |multiset(a)| == |a| && |multiset(b)| == |b|;
    if a != [] {
      SameHead(a, b);
      OrderedUnique(a[1..], b[1..]);
      assert a == [a[0]] + a[1..] && b == [b[0]] + b[1..];
    }
  }

  lemma SortedTexts(ports: seq<PortSpec>)
    ensures var sorted := Sort(TEXT_ORDER, PortTexts(ports));
            && Ordered(TEXT_ORDER, sorted) && multiset(sorted) == multiset(PortTexts(ports)) && |sorted| == |ports|
            && forall t :: t in sorted ==> t != "" && ',' !in t
  {
    hide PortText, Sort, AtMost;
    var texts := PortTexts(ports);
    var sorted := Sort(TEXT_ORDER, texts);
    TextOrderFacts();
    SortIsStable(TEXT_ORDER, texts);
    forall t | t in sorted ensures t != "" && ',' !in t {
      assert t in multiset(sorted) && t in multiset(texts);
      var i :| 0 <= i < |texts| && texts[i] == t;
      PortTextShape(ports[i]);
    }
  }

  /** Equal keys exactly for port lists that are permutations of each other. */
  lemma KeyIsCanonical(a: seq<PortSpec>, b: seq<PortSpec>)
    ensures PortsKey(a) == PortsKey(b) <==> multiset(a) == multiset(b)
  {
    hide PortTexts, Sort, AtMost, Split, Ordered, TotalPreorder, NoTies;
    var sa, sb := Sort(TEXT_ORDER, PortTexts(a)), Sort(TEXT_ORDER, PortTexts(b));
    SortedTexts(a);
    SortedTexts(b);
    SameTexts(a, b);
    TextOrderFacts();
    if multiset(a) == multiset(b) { OrderedUnique(sa, sb); }
    if PortsKey(a) == PortsKey(b) {
      NonemptyJoin(sa);
      NonemptyJoin(sb);
      if sa != [] && sb != [] {
        SplitOfJoin(sa, ',');
        SplitOfJoin(sb, ',');
      }
      assert sa == sb;
    }
  }

  lemma {:induction false} NonemptyJoin(texts: seq<string>)
    requires forall t :: t in texts ==> t != ""
    ensures Join(texts, ',') == "" <==> texts == []
  {
    if texts != [] { assert texts[0] in texts; }
  }

  // ------------------------------------------------------------- the service label

  datatype ServiceSpec = Preset(set_: string) | Ports(ports: seq<PortSpec>)

  datatype ServiceOption = ServiceOption(id: string, title: string, spec: Option<ServiceSpec>)

  function Tcp1(port: nat): PortSpec { PortSpec(Tcp, port, port) }
  function Udp1(port: nat): PortSpec { PortSpec(Udp, port, port) }

  /** The known bundles; a custom entry has no specification. */
  const SERVICE_OPTIONS: seq<ServiceOption> := [
    ServiceOption("casting", "Casting (mDNS, Cast, AirPlay, DLNA)", Some(Preset("casting"))),
    ServiceOption("mirroring", "Screen mirroring (all ports — two devices only)", Some(Preset("mirroring"))),
    ServiceOption("smart-home", "Smart home (Govee, Tuya, Shelly, ESPHome, LIFX)", Some(Preset("smart_home"))),
    ServiceOption("printing", "Printing (IPP, AirPrint)", Some(Ports([Tcp1(631), Udp1(5353), Tcp1(9100)]))),
    ServiceOption("file-sharing", "File sharing (SMB)", Some(Ports([Tcp1(445), Tcp1(139)]))),
    ServiceOption("remote-desktop", "Remote desktop (RDP, VNC)", Some(Ports([Tcp1(3389), Tcp1(5900)]))),
    ServiceOption("ssh", "SSH", Some(Ports([Tcp1(22)]))),
    ServiceOption("web", "Web (HTTP, HTTPS)", Some(Ports([Tcp1(80), Tcp1(443)]))),
    ServiceOption("custom", "Custom ports…", None)]

  predicate Matches(o: ServiceOption, service: ServiceSpec) {
    match o.spec
    case None => false
    case Some(Preset(s)) => service.Preset? && s == service.set_
    case Some(Ports(ports)) => service.Ports? && PortsKey(ports) == PortsKey(service.ports)
  }

  function MatchIn(options: seq<ServiceOption>, service: ServiceSpec): Option<string> {
    if options == [] then None
    else if Matches(options[0], service) then Some(options[0].title)
    else MatchIn(options[1..], service)
  }

  function MatchServiceLabel(service: ServiceSpec): Option<string> { MatchIn(SERVICE_OPTIONS, service) }

  /** The bundle `service` is, said without keys: same preset, or the same ports counted. */
  predicate IsBundle(o: ServiceOption, service: ServiceSpec) {
    match o.spec
    case None => false
    case Some(Preset(s)) => service == Preset(s)
    case Some(Ports(ports)) => service.Ports? && multiset(ports) == multiset(service.ports)
  }

  lemma MatchesIsBundle(o: ServiceOption, service: ServiceSpec)
    ensures Matches(o, service) <==> IsBundle(o, service)
  {
    hide PortsKey;
    if o.spec.Some? && o.spec.value.Ports? && service.Ports? {
      KeyIsCanonical(o.spec.value.ports, service.ports);
    }
  }

  /** The label is that of the first bundle the service is, and there is none exactly when it is no bundle. */
  lemma {:induction false} LabelIsFirstBundle(options: seq<ServiceOption>, service: ServiceSpec)
    ensures if exists i :: 0 <= i < |options| && IsBundle(options[i], service)
            then exists i :: 0 <= i < |options| && IsBundle(options[i], service)
                          && MatchIn(options, service) == Some(options[i].title)
                          && forall j :: 0 <= j < i ==> !IsBundle(options[j], service)
            else MatchIn(options, service).None?
  {
    hide Matches, IsBundle;
    if options != [] {
      MatchesIsBundle(options[0], service);
      var rest := options[1..];
      LabelIsFirstBundle(rest, service);
      if !IsBundle(options[0], service) {
        assert forall i :: 0 < i < |options| ==> options[i] == rest[i - 1];
        if exists i :: 0 <= i < |rest| && IsBundle(rest[i], service) {
          var i :| 0 <= i < |rest| && IsBundle(rest[i], service)
                   && MatchIn(rest, service) == Some(rest[i].title)
                   && forall j :: 0 <= j < i ==> !IsBundle(rest[j], service);
          assert options[i + 1] == rest[i];
        }
      }
    }
  }

  lemma {:induction false} SameMatch(options: seq<ServiceOption>, a: seq<PortSpec>, b: seq<PortSpec>)
    requires multiset(a) == multiset(b)
    ensures MatchIn(options, Ports(a)) == MatchIn(options, Ports(b))
  {
    hide Matches;
    if options != [] {
      MatchesIsBundle(options[0], Ports(a));
      MatchesIsBundle(options[0], Ports(b));
      SameMatch(options[1..], a, b);
    }
  }

  /** Reordering a stored port list never changes the label shown for it. */
  lemma LabelIgnoresOrder(a: seq<PortSpec>, b: seq<PortSpec>)
    requires multiset(a) == multiset(b)
    ensures MatchServiceLabel(Ports(a)) == MatchServiceLabel(Ports(b))
  {
    hide MatchIn;
    SameMatch(SERVICE_OPTIONS, a, b);
  }

  /** A port that only one of the port bundles has, for each of them. */
  function Marker(i: nat): PortSpec {
    if i == 3 then Tcp1(631) else if i == 4 then Tcp1(445) else if i == 5 then Tcp1(3389)
    else if i == 6 then Tcp1(22) else Tcp1(80)
  }

  lemma BundlesDiffer(i: nat, j: nat)
    requires i < 9 && j < 9 && i != j && SERVICE_OPTIONS[i].spec.Some?
    ensures !IsBundle(SERVICE_OPTIONS[j], SERVICE_OPTIONS[i].spec.value)
  {
    var a, b := SERVICE_OPTIONS[i].spec.value, SERVICE_OPTIONS[j].spec;
    if 3 <= i <= 7 && 3 <= j <= 7 {
      MarkerOf(i, i);
      MarkerOf(i, j);
      assert Marker(i) in multiset(a.ports) && Marker(i) !in multiset(b.value.ports);
    }
  }

  lemma MarkerOf(i: nat, j: nat)
    requires 3 <= i <= 7 && 3 <= j <= 7
    ensures SERVICE_OPTIONS[j].spec.Some? && SERVICE_OPTIONS[j].spec.value.Ports?
    ensures Marker(i) in SERVICE_OPTIONS[j].spec.value.ports <==> i == j
  {
  }

  /** Every known bundle, stored in any order, is matched back to its own label. */
  lemma BundleMatchesBack(i: nat, service: ServiceSpec)
    requires i < |SERVICE_OPTIONS| && IsBundle(SERVICE_OPTIONS[i], service)
    ensures MatchServiceLabel(service) == Some(SERVICE_OPTIONS[i].title)
  {
    hide MatchIn;
    LabelIsFirstBundle(SERVICE_OPTIONS, service);
    var k :| 0 <= k < |SERVICE_OPTIONS| && IsBundle(SERVICE_OPTIONS[k], service)
             && MatchServiceLabel(service) == Some(SERVICE_OPTIONS[k].title);
    SameBundle(i, k, service);
    if k != i { BundlesDiffer(i, k); }
  }

  lemma SameBundle(i: nat, k: nat, service: ServiceSpec)
    requires i < 9 && k < 9 && IsBundle(SERVICE_OPTIONS[i], service) && IsBundle(SERVICE_OPTIONS[k], service)
    ensures SERVICE_OPTIONS[i].spec.Some? && IsBundle(SERVICE_OPTIONS[k], SERVICE_OPTIONS[i].spec.value)
  {
  }
}
