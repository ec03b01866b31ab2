/**
 The zone and conduit policy (tools/otde/conduit.py). Addresses and networks are those of Python's `ipaddress`: a
 version and a number, and a block of addresses that share a prefix.
 */
module Conduits {

  import opened Arithmetic
  import opened Results

  // ---------------------------------------------------------------------------------------------------------
  // Addresses and blocks
  // ---------------------------------------------------------------------------------------------------------

  datatype Version = V4 | V6

  datatype Address = Address(version: Version, number: nat)

  /** The addresses that agree with `base` in all but the last `hostBits` bits. */
  datatype Network = Network(version: Version, base: nat, hostBits: nat)

  predicate Contains(n: Network, a: Address) {
    a.version == n.version && a.number / Pow2(n.hostBits) == n.base / Pow2(n.hostBits)
  }

  ghost predicate Inside(m: Network, n: Network) {
    forall a :: Contains(m, a) ==> Contains(n, a)
  }

  ghost predicate Disjoint(m: Network, n: Network) {
    forall a :: !(Contains(m, a) && Contains(n, a))
  }

  /** By the mask arithmetic, two blocks are disjoint or one lies inside the other. */
  lemma NestedOrDisjoint(m: Network, n: Network)
    ensures Disjoint(m, n) || Inside(m, n) || Inside(n, m)
  {
    if !Disjoint(m, n) {
      var a :| Contains(m, a) && Contains(n, a);
      if m.hostBits <= n.hostBits {
        SmallerInside(m, n, a);
      } else {
        SmallerInside(n, m, a);
      }
    }
  }

  lemma SmallerInside(m: Network, n: Network, a: Address)
    requires m.hostBits <= n.hostBits && Contains(m, a) && Contains(n, a)
    ensures Inside(m, n)
  {
    var p, q := Pow2(m.hostBits), Pow2(n.hostBits - m.hostBits);
    PowSum(m.hostBits, n.hostBits - m.hostBits);
    forall b | Contains(m, b)
      ensures Contains(n, b)
    {
      DivideTwice(a.number, p, q);
      DivideTwice(b.number, p, q);
    }
  }

  // ---------------------------------------------------------------------------------------------------------
  // Zones
  // ---------------------------------------------------------------------------------------------------------

  datatype Zone = Zone(name: string, cidr: Network)

  datatype Conduit = Conduit(from: string, to: string, ports: seq<int>)

  datatype Policy = Policy(zones: seq<Zone>, conduits: seq<Conduit>)

  /** The zone of an address; a missing or unreadable address is `None` and has none. */
  function ZoneFor(a: Option<Address>, zones: seq<Zone>): Option<string> {
    if a.None? || zones == [] then None
    else if Contains(zones[0].cidr, a.value) then Some(zones[0].name)
    else ZoneFor(a, zones[1..])
  }

  /** No zone's block contains another zone's. */
  ghost predicate NoneNested(zones: seq<Zone>) {
    forall i, j :: 0 <= i < |zones| && 0 <= j < |zones| && i != j ==> !Inside(zones[i].cidr, zones[j].cidr)
  }

  /** Blocks that share an address belong to zones of one name. */
  ghost predicate Unambiguous(zones: seq<Zone>) {
    forall y, z :: y in zones && z in zones && y.name != z.name ==> Disjoint(y.cidr, z.cidr)
  }

  lemma NoneNestedUnambiguous(zones: seq<Zone>)
    requires NoneNested(zones)
    ensures Unambiguous(zones)
  {
    forall y, z | y in zones && z in zones && y.name != z.name
      ensures Disjoint(y.cidr, z.cidr)
    {
      var i :| 0 <= i < |zones| && zones[i] == y;
      var j :| 0 <= j < |zones| && zones[j] == z;
      NestedOrDisjoint(y.cidr, z.cidr);
    }
  }

  lemma {:induction false} ZoneFound(a: Address, zones: seq<Zone>)
    ensures ZoneFor(Some(a), zones).None? <==> forall z :: z in zones ==> !Contains(z.cidr, a)
    ensures ZoneFor(Some(a), zones).Some? ==>
              exists z :: z in zones && Contains(z.cidr, a) && z.name == ZoneFor(Some(a), zones).value
  {
    hide Contains;
    if zones != [] {
      ZoneFound(a, zones[1..]);
      assert forall z :: z in zones <==> z == zones[0] || z in zones[1..];
    }
  }

  /** The zone of every address is the same however the zones are listed. */
  ghost predicate OrderFree(zones: seq<Zone>) {
    forall other: seq<Zone>, a :: multiset(other) == multiset(zones) ==> ZoneFor(a, other) == ZoneFor(a, zones)
  }

  lemma SameZone(zones: seq<Zone>, other: seq<Zone>, a: Option<Address>)
    requires Unambiguous(zones) && multiset(other) == multiset(zones)
    ensures ZoneFor(a, other) == ZoneFor(a, zones)
  {
    if a.Some? {
      hide Contains;
      forall z
        ensures z in other <==> z in zones
      {
        assert z in multiset(other) <==> z in multiset(zones);
      }
      ZoneFound(a.value, zones);
      ZoneFound(a.value, other);
    }
  }

  /** Listing two overlapping zones of different names first, in either order, gives an address either name. */
  lemma Ambiguous(zones: seq<Zone>, y: Zone, z: Zone, a: Address)
    requires y in zones && z in zones && y.name != z.name && Contains(y.cidr, a) && Contains(z.cidr, a)
    ensures !OrderFree(zones)
  {
    hide Contains;
    var s := ToFront(zones, y);
    var t := ToFront(zones, z);
    assert ZoneFor(Some(a), s) == Some(y.name) && ZoneFor(Some(a), t) == Some(z.name);
  }

  lemma ToFront(zones: seq<Zone>, z: Zone) returns (s: seq<Zone>)
    requires z in zones
    ensures multiset(s) == multiset(zones) && s != [] && s[0] == z
  {
    var i :| 0 <= i < |zones| && zones[i] == z;
    s := [z] + (zones[..i] + zones[i + 1..]);
    assert zones == zones[..i] + [z] + zones[i + 1..];
  }

  /** The listing order of zones is immaterial exactly when overlapping zones share a name. */
  lemma OrderFreeIff(zones: seq<Zone>)
    ensures OrderFree(zones) <==> Unambiguous(zones)
  {
    hide Contains, ZoneFor;
    if Unambiguous(zones) {
      forall other: seq<Zone>, a | multiset(other) == multiset(zones)
        ensures ZoneFor(a, other) == ZoneFor(a, zones)
      {
        SameZone(zones, other, a);
      }
    } else {
      var y, z :| y in zones && z in zones && y.name != z.name && !Disjoint(y.cidr, z.cidr);
      var a :| Contains(y.cidr, a) && Contains(z.cidr, a);
      Ambiguous(zones, y, z, a);
    }
  }

  /** In particular when no zone's block contains another's. */
  lemma NoneNestedOrderFree(zones: seq<Zone>)
    requires NoneNested(zones)
    ensures OrderFree(zones)
  {
    NoneNestedUnambiguous(zones);
    OrderFreeIff(zones);
  }

  // ---------------------------------------------------------------------------------------------------------
  // Rules
  // ---------------------------------------------------------------------------------------------------------

  /** An event's endpoints, and its destination port if it is numeric. */
  datatype Event = Event(src: Option<Address>, dst: Option<Address>, port: Option<int>)

  datatype Kind = UndeclaredPath | UndeclaredService | OtherKind

  datatype Unsupported = NoConduitBlock | UnsupportedType

  function FindConduit(conduits: seq<Conduit>, src: string, dst: string): Option<Conduit> {
    if conduits == [] then None
    else if conduits[0].from == src && conduits[0].to == dst then Some(conduits[0])
    else FindConduit(conduits[1..], src, dst)
  }

  function MatchConduit(kind: Option<Kind>, e: Event, policy: Policy): Result<bool, Unsupported> {
    if kind.None? then Err(NoConduitBlock)
    else
      var src, dst := ZoneFor(e.src, policy.zones), ZoneFor(e.dst, policy.zones);
      if src.None? || dst.None? || src == dst then Ok(false)
      else
        var conduit := FindConduit(policy.conduits, src.value, dst.value);
        match kind.value
        case UndeclaredPath => Ok(conduit.None?)
        case UndeclaredService =>
          Ok(conduit.Some? && e.port.Some? && conduit.value.ports != [] && e.port.value !in conduit.value.ports)
        case OtherKind => Err(UnsupportedType)
  }

  // ---------------------------------------------------------------------------------------------------------
  // Accounting
  // ---------------------------------------------------------------------------------------------------------

  /** The zone-to-zone pair of an event, if it crosses between two zones whose names are not empty. */
  function Crossing(e: Event, policy: Policy): Option<(string, string)> {
    var src, dst := ZoneFor(e.src, policy.zones), ZoneFor(e.dst, policy.zones);
    if src.Some? && src.value != "" && dst.Some? && dst.value != "" && src != dst then Some((src.value, dst.value))
    else None
  }

  method ObservedConduits(policy: Policy, events: seq<Event>) returns (observed: set<(string, string)>)
    ensures observed == Observed(policy, events)
  {
    observed := {};
    for i := 0 to |events|
      invariant observed == Observed(policy, events[..i])
    {
      hide ZoneFor;
      ObservedNext(policy, events[..i], events[i]);
      assert events[..i + 1] == events[..i] + [events[i]];
      var src, dst := ZoneFor(events[i].src, policy.zones), ZoneFor(events[i].dst, policy.zones);
      if src.Some? && src.value != "" && dst.Some? && dst.value != "" && src != dst {
        observed := observed + {(src.value, dst.value)};
      }
    }
    assert events[..|events|] == events;
  }

  function Observed(policy: Policy, events: seq<Event>): set<(string, string)> {
    set e | e in events && Crossing(e, policy).Some? :: Crossing(e, policy).value
  }

  lemma ObservedNext(policy: Policy, events: seq<Event>, e: Event)
    ensures Observed(policy, events + [e])
         == Observed(policy, events) + if Crossing(e, policy).Some? then {Crossing(e, policy).value} else {}
  {
    hide Crossing;
    forall d
      ensures d in events + [e] <==> d in events || d == e
    {
    }
  }

  /** The declared pairs that are not observed, in declaration order. */
  function Unused(conduits: seq<Conduit>, observed: set<(string, string)>): seq<(string, string)> {
    if conduits == [] then []
    else
      var pair := (conduits[0].from, conduits[0].to);
      (if pair in observed then [] else [pair]) + Unused(conduits[1..], observed)
  }

  function Declared(conduits: seq<Conduit>): set<(string, string)> {
    set c | c in conduits :: (c.from, c.to)
  }

  predicate NamedZones(zones: seq<Zone>) {
    forall z :: z in zones ==> z.name != ""
  }

  predicate DistinctPairs(conduits: seq<Conduit>) {
    forall i, j :: 0 <= i < j < |conduits| ==> conduits[i].from != conduits[j].from || conduits[i].to != conduits[j].to
  }

  lemma {:induction false} FoundIffDeclared(conduits: seq<Conduit>, src: string, dst: string)
    ensures FindConduit(conduits, src, dst).Some? <==> (src, dst) in Declared(conduits)
  {
    if conduits != [] {
      FoundIffDeclared(conduits[1..], src, dst);
      assert conduits == [conduits[0]] + conduits[1..];
      assert Declared(conduits) == {(conduits[0].from, conduits[0].to)} + Declared(conduits[1..]);
    }
  }

  lemma {:induction false} FoundConduit(conduits: seq<Conduit>, src: string, dst: string, c: Conduit)
    requires DistinctPairs(conduits)
    ensures FindConduit(conduits, src, dst) == Some(c) <==> c in conduits && c.from == src && c.to == dst
  {
    if conduits != [] {
      FoundConduit(conduits[1..], src, dst, c);
      assert conduits == [conduits[0]] + conduits[1..];
    }
  }

  /** Between two different zones: whether `c` is the conduit that declares the way, but not for the port of `e`. */
  predicate PortRefused(e: Event, c: Conduit) {
    e.port.Some? && c.ports != [] && e.port.value !in c.ports
  }

  /**
   A path violation is an undeclared pair and, when no pair is declared twice, a service violation is a declared one
   whose conduit refuses the port. An event never violates both.
   */
  lemma Violations(e: Event, policy: Policy, src: string, dst: string)
    requires ZoneFor(e.src, policy.zones) == Some(src) && ZoneFor(e.dst, policy.zones) == Some(dst) && src != dst
    ensures MatchConduit(Some(UndeclaredPath), e, policy) == Ok((src, dst) !in Declared(policy.conduits))
    ensures DistinctPairs(policy.conduits) ==>
              MatchConduit(Some(UndeclaredService), e, policy)
                == Ok(exists c :: c in policy.conduits && c.from == src && c.to == dst && PortRefused(e, c))
    ensures !(MatchConduit(Some(UndeclaredPath), e, policy) == MatchConduit(Some(UndeclaredService), e, policy)
              == Ok(true))
  {
    hide ZoneFor, FindConduit, Declared, DistinctPairs;
    FoundIffDeclared(policy.conduits, src, dst);
    if DistinctPairs(policy.conduits) {
      forall c
        ensures FindConduit(policy.conduits, src, dst) == Some(c)
           <==> c in policy.conduits && c.from == src && c.to == dst
      {
        FoundConduit(policy.conduits, src, dst, c);
      }
    }
  }

  lemma ZoneNamed(a: Option<Address>, zones: seq<Zone>)
    requires NamedZones(zones) && ZoneFor(a, zones).Some?
    ensures ZoneFor(a, zones).value != ""
  {
    ZoneFound(a.value, zones);
  }

  /** No event leaves the declared paths. */
  ghost predicate Quiet(policy: Policy, events: seq<Event>) {
    forall e :: e in events ==> MatchConduit(Some(UndeclaredPath), e, policy) == Ok(false)
  }

  /** Zones with an empty name are not reported: every way between addresses that starts or ends in one is declared. */
  ghost predicate UnnamedDeclared(policy: Policy) {
    forall a, b :: Unreported(policy, a, b) ==> (ZoneName(policy, a), ZoneName(policy, b)) in Declared(policy.conduits)
  }

  /** The name of an address's zone, empty where there is none. */
  function ZoneName(policy: Policy, a: Address): string {
    if ZoneFor(Some(a), policy.zones).Some? then ZoneFor(Some(a), policy.zones).value else ""
  }

  /** The two addresses are in different zones, one of which has an empty name. */
  predicate Unreported(policy: Policy, a: Address, b: Address) {
    var src, dst := ZoneFor(Some(a), policy.zones), ZoneFor(Some(b), policy.zones);
    src.Some? && dst.Some? && src != dst && (src.value == "" || dst.value == "")
  }

  lemma PathViolation(policy: Policy, e: Event)
    ensures MatchConduit(Some(UndeclaredPath), e, policy).Ok?
    ensures MatchConduit(Some(UndeclaredPath), e, policy).value <==>
              && e.src.Some? && e.dst.Some?
              && (Crossing(e, policy).Some? || Unreported(policy, e.src.value, e.dst.value))
              && (ZoneName(policy, e.src.value), ZoneName(policy, e.dst.value)) !in Declared(policy.conduits)
    ensures Crossing(e, policy).Some? ==>
              && e.src.Some? && e.dst.Some?
              && Crossing(e, policy).value == (ZoneName(policy, e.src.value), ZoneName(policy, e.dst.value))
  {
    hide Declared, FindConduit, Contains;
    var src, dst := ZoneFor(e.src, policy.zones), ZoneFor(e.dst, policy.zones);
    if src.Some? && dst.Some? {
      FoundIffDeclared(policy.conduits, src.value, dst.value);
    }
  }

  /** When the ways of unnamed zones are declared, no event leaves the declared paths exactly when the observed pairs
      are all declared. */
  lemma QuietIffObservedDeclared(policy: Policy, events: seq<Event>)
    requires UnnamedDeclared(policy)
    ensures Quiet(policy, events) <==> Observed(policy, events) <= Declared(policy.conduits)
  {
    hide ZoneFor, Declared, MatchConduit, Crossing, Unreported, ZoneName;
    forall e
      ensures MatchConduit(Some(UndeclaredPath), e, policy) == Ok(false)
         <==> Crossing(e, policy).None? || Crossing(e, policy).value in Declared(policy.conduits)
    {
      PathViolation(policy, e);
    }
    forall e | e in events && Crossing(e, policy).Some?
      ensures Crossing(e, policy).value in Observed(policy, events)
    {
    }
  }

  lemma NamedZonesDeclared(policy: Policy)
    requires NamedZones(policy.zones)
    ensures UnnamedDeclared(policy)
  {
    hide ZoneFor;
    forall a, b
      ensures !Unreported(policy, a, b)
    {
      if ZoneFor(Some(a), policy.zones).Some? {
        ZoneNamed(Some(a), policy.zones);
      }
      if ZoneFor(Some(b), policy.zones).Some? {
        ZoneNamed(Some(b), policy.zones);
      }
    }
  }

  lemma UnreportedEvent(policy: Policy, a: Address, b: Address)
    requires Unreported(policy, a, b)
    requires (ZoneName(policy, a), ZoneName(policy, b)) !in Declared(policy.conduits)
    ensures var events := [Event(Some(a), Some(b), None)]; !Quiet(policy, events) && Observed(policy, events) == {}
  {
    hide ZoneFor, Declared, MatchConduit, ZoneName;
    var e := Event(Some(a), Some(b), None);
    PathViolation(policy, e);
    assert e in [e];
  }

  /**
   The rule on undeclared paths and the report on observed pairs agree, whatever the events, for exactly the policies
   that declare every way of an unnamed zone, and so whenever all zones are named.
   */
  lemma RuleAgreesWithReportIff(policy: Policy)
    ensures (forall events :: Quiet(policy, events) <==> Observed(policy, events) <= Declared(policy.conduits))
       <==> UnnamedDeclared(policy)
    ensures NamedZones(policy.zones) ==> UnnamedDeclared(policy)
  {
    hide Quiet, Observed, Declared, Unreported, ZoneName, NamedZones;
    if NamedZones(policy.zones) {
      NamedZonesDeclared(policy);
    }
    if UnnamedDeclared(policy) {
      forall events
        ensures Quiet(policy, events) <==> Observed(policy, events) <= Declared(policy.conduits)
      {
        QuietIffObservedDeclared(policy, events);
      }
    } else {
      var a, b :| Unreported(policy, a, b)
                  && (ZoneName(policy, a), ZoneName(policy, b)) !in Declared(policy.conduits);
      UnreportedEvent(policy, a, b);
    }
  }

  lemma {:induction false} DeclaredSize(conduits: seq<Conduit>)
    requires DistinctPairs(conduits)
    ensures |Declared(conduits)| == |conduits|
  {
    if conduits != [] {
      var pair := (conduits[0].from, conduits[0].to);
      DeclaredSize(conduits[1..]);
      assert conduits == [conduits[0]] + conduits[1..];
      assert Declared(conduits) == {pair} + Declared(conduits[1..]);
    }
  }

  lemma DeclaredNext(conduits: seq<Conduit>)
    requires conduits != [] && DistinctPairs(conduits)
    ensures DistinctPairs(conduits[1..])
    ensures var pair := (conduits[0].from, conduits[0].to);
            Declared(conduits) == {pair} + Declared(conduits[1..]) && pair !in Declared(conduits[1..])
  {
    assert conduits == [conduits[0]] + conduits[1..];
  }

  lemma NoneDeclared()
    ensures Declared([]) == {}
  {
  }

  lemma {:induction false} UnusedSize(conduits: seq<Conduit>, observed: set<(string, string)>)
    requires DistinctPairs(conduits)
    ensures |Unused(conduits, observed)| == |Declared(conduits) - observed|
  {
    hide Declared, DistinctPairs;
    if conduits == [] {
      NoneDeclared();
    } else {
      var pair, rest := (conduits[0].from, conduits[0].to), Declared(conduits[1..]);
      DeclaredNext(conduits);
      UnusedSize(conduits[1..], observed);
      if pair in observed {
        assert Declared(conduits) - observed == rest - observed;
      } else {
        assert Declared(conduits) - observed == {pair} + (rest - observed);
      }
    }
  }

  /** When no event leaves the declared paths, observed and unused pairs account for every declared conduit once. */
  lemma ConduitsAccountedFor(policy: Policy, events: seq<Event>)
    requires DistinctPairs(policy.conduits) && Observed(policy, events) <= Declared(policy.conduits)
    ensures |Observed(policy, events)| + |Unused(policy.conduits, Observed(policy, events))| == |policy.conduits|
  {
    hide Observed, Declared;
    var observed, declared := Observed(policy, events), Declared(policy.conduits);
    DeclaredSize(policy.conduits);
    UnusedSize(policy.conduits, observed);
    assert declared == observed + (declared - observed);
  }

  /** The smallest instance of a disagreement: the rule fires and the report is empty. */
  lemma UnnamedZoneUnreported()
    ensures var policy := Policy([Zone("", Network(V4, 0, 0)), Zone("b", Network(V4, 1, 0))], []);
            var e := Event(Some(Address(V4, 0)), Some(Address(V4, 1)), None);
            MatchConduit(Some(UndeclaredPath), e, policy) == Ok(true) && Observed(policy, [e]) == {}
  {
    var policy := Policy([Zone("", Network(V4, 0, 0)), Zone("b", Network(V4, 1, 0))], []);
    var e := Event(Some(Address(V4, 0)), Some(Address(V4, 1)), None);
    assert ZoneFor(e.src, policy.zones) == Some("");
    assert !Contains(policy.zones[0].cidr, e.dst.value);
    assert ZoneFor(e.dst, policy.zones) == ZoneFor(e.dst, policy.zones[1..]) == Some("b");
  }

  // ---------------------------------------------------------------------------------------------------------
  // Element by element
  // ---------------------------------------------------------------------------------------------------------

  /** A block holds as many consecutive addresses as its host bits count, from its base with these bits cleared. */
  lemma ContainsIff(n: Network, a: Address, size: nat)
    requires size == Pow2(n.hostBits)
    ensures Contains(n, a)
       <==> a.version == n.version && n.base - n.base % size <= a.number < n.base - n.base % size + size
  {
    SameQuotient(n.base, a.number, size);
  }

  lemma SameQuotient(x: nat, y: nat, m: nat)
    requires m > 0
    ensures y / m == x / m <==> x - x % m <= y < x - x % m + m
  {
    var q, r := x / m, y / m;
    assert x - x % m == m * q && m * r <= y < m * r + m;
    Next(m, q, r);
    Next(m, r, q);
  }

  /** Zone `i` is the first in the list whose block holds the address. */
  ghost predicate FirstZone(zones: seq<Zone>, a: Address, i: nat) {
    i < |zones| && Contains(zones[i].cidr, a) && forall j :: 0 <= j < i ==> !Contains(zones[j].cidr, a)
  }

  lemma FirstZoneStep(zones: seq<Zone>, a: Address, i: nat)
    requires zones != []
    ensures FirstZone(zones, a, i)
       <==> if i == 0 then Contains(zones[0].cidr, a)
            else !Contains(zones[0].cidr, a) && FirstZone(zones[1..], a, i - 1)
  {
    hide Contains;
    if i > 0 && !Contains(zones[0].cidr, a) && FirstZone(zones[1..], a, i - 1) {
      forall j | 0 <= j < i
        ensures !Contains(zones[j].cidr, a)
      {
        assert j > 0 ==> zones[j] == zones[1..][j - 1];
      }
    }
    if i > 0 && FirstZone(zones, a, i) {
      assert zones[1..][i - 1] == zones[i];
      forall j | 0 <= j < i - 1
        ensures !Contains(zones[1..][j].cidr, a)
      {
        assert zones[1..][j] == zones[j + 1];
      }
    }
  }

  /** The zone of an address is that of the first block that holds it; without an address there is none. */
  lemma {:induction false} ZoneForIs(a: Address, zones: seq<Zone>)
    ensures ZoneFor(None, zones) == None
    ensures ZoneFor(Some(a), zones) == None <==> forall i: nat :: !FirstZone(zones, a, i)
    ensures forall i: nat :: FirstZone(zones, a, i) ==> i < |zones| && ZoneFor(Some(a), zones) == Some(zones[i].name)
  {
    if zones != [] {
      ZoneForIs(a, zones[1..]);
      hide Contains, FirstZone;
      forall i: nat
        ensures FirstZone(zones, a, i)
           <==> if i == 0 then Contains(zones[0].cidr, a)
                else !Contains(zones[0].cidr, a) && FirstZone(zones[1..], a, i - 1)
      {
        FirstZoneStep(zones, a, i);
      }
      if !Contains(zones[0].cidr, a) {
        if i: nat :| FirstZone(zones[1..], a, i) {
          FirstZoneStep(zones, a, i + 1);
        }
      } else {
        FirstZoneStep(zones, a, 0);
      }
    }
  }

  /** Conduit `i` is the first that is declared for the pair. */
  ghost predicate FirstConduit(conduits: seq<Conduit>, src: string, dst: string, i: nat) {
    && i < |conduits| && conduits[i].from == src && conduits[i].to == dst
    && forall j :: 0 <= j < i ==> !(conduits[j].from == src && conduits[j].to == dst)
  }

  lemma FirstConduitStep(conduits: seq<Conduit>, src: string, dst: string, i: nat)
    requires conduits != []
    ensures var here := conduits[0].from == src && conduits[0].to == dst;
            FirstConduit(conduits, src, dst, i)
            <==> if i == 0 then here else !here && FirstConduit(conduits[1..], src, dst, i - 1)
  {
    if i > 0 && !(conduits[0].from == src && conduits[0].to == dst) && FirstConduit(conduits[1..], src, dst, i - 1) {
      forall j | 0 <= j < i
        ensures !(conduits[j].from == src && conduits[j].to == dst)
      {
        assert j > 0 ==> conduits[j] == conduits[1..][j - 1];
      }
    }
    if i > 0 && FirstConduit(conduits, src, dst, i) {
      assert conduits[1..][i - 1] == conduits[i];
      forall j | 0 <= j < i - 1
        ensures !(conduits[1..][j].from == src && conduits[1..][j].to == dst)
      {
        assert conduits[1..][j] == conduits[j + 1];
      }
    }
  }

  lemma {:induction false} FoundFirst(conduits: seq<Conduit>, src: string, dst: string)
    ensures FindConduit(conduits, src, dst) == None <==> forall i: nat :: !FirstConduit(conduits, src, dst, i)
    ensures forall i: nat :: FirstConduit(conduits, src, dst, i) ==>
              i < |conduits| && FindConduit(conduits, src, dst) == Some(conduits[i])
  {
    if conduits != [] {
      FoundFirst(conduits[1..], src, dst);
      hide FirstConduit;
      var here := conduits[0].from == src && conduits[0].to == dst;
      forall i: nat
        ensures FirstConduit(conduits, src, dst, i)
           <==> if i == 0 then here else !here && FirstConduit(conduits[1..], src, dst, i - 1)
      {
        FirstConduitStep(conduits, src, dst, i);
      }
      if !here {
        if i: nat :| FirstConduit(conduits[1..], src, dst, i) {
          FirstConduitStep(conduits, src, dst, i + 1);
        }
      } else {
        FirstConduitStep(conduits, src, dst, 0);
      }
    }
  }

  /**
   Every outcome of a rule. Without two different zones nothing fires, whatever the type of the rule; between two, the
   first conduit declared for the pair decides.
   */
  lemma MatchIs(kind: Option<Kind>, e: Event, policy: Policy)
    ensures var src, dst := ZoneFor(e.src, policy.zones), ZoneFor(e.dst, policy.zones);
            var r := MatchConduit(kind, e, policy);
            if kind == None then r == Err(NoConduitBlock)
            else if src == None || dst == None || src == dst then r == Ok(false)
            else
              match kind.value
              case UndeclaredPath => r == Ok(forall i: nat :: !FirstConduit(policy.conduits, src.value, dst.value, i))
              case UndeclaredService =>
                r == Ok(exists i: nat :: FirstConduit(policy.conduits, src.value, dst.value, i)
                                         && PortRefused(e, policy.conduits[i]))
              case OtherKind => r == Err(UnsupportedType)
  {
    hide ZoneFor, FindConduit, FirstConduit;
    var src, dst := ZoneFor(e.src, policy.zones), ZoneFor(e.dst, policy.zones);
    if src.Some? && dst.Some? {
      FoundFirst(policy.conduits, src.value, dst.value);
    }
  }

  /** A pair is observed when some event goes from the one zone to the other and both have names. */
  lemma ObservedIff(policy: Policy, events: seq<Event>, src: string, dst: string)
    ensures (src, dst) in Observed(policy, events)
       <==> && src != "" && dst != "" && src != dst
            && exists e :: && e in events && ZoneFor(e.src, policy.zones) == Some(src)
                           && ZoneFor(e.dst, policy.zones) == Some(dst)
  {
    hide ZoneFor;
    if e :| e in events && ZoneFor(e.src, policy.zones) == Some(src) && ZoneFor(e.dst, policy.zones) == Some(dst) {
      assert src != "" && dst != "" && src != dst ==> Crossing(e, policy) == Some((src, dst));
    }
  }

  predicate Increasing(positions: seq<nat>) {
    forall i, j :: 0 <= i < j < |positions| ==> positions[i] < positions[j]
  }

  /** The listed pairs are those of the conduits at these positions, which are the ones that are not observed. */
  predicate UnusedAt(conduits: seq<Conduit>, observed: set<(string, string)>, pairs: seq<(string, string)>, positions: seq<nat>) {
    && Increasing(positions) && |positions| == |pairs|
    && (forall i :: 0 <= i < |positions| ==>
          && positions[i] < |conduits|
          && pairs[i] == (conduits[positions[i]].from, conduits[positions[i]].to))
    && forall j :: 0 <= j < |conduits| ==>
         (j in positions <==> (conduits[j].from, conduits[j].to) !in observed)
  }

  /** The unused conduits are those whose pair is not observed, in the order of their declaration. */
  lemma {:induction false} UnusedIs(conduits: seq<Conduit>, observed: set<(string, string)>)
    ensures exists positions :: UnusedAt(conduits, observed, Unused(conduits, observed), positions)
  {
    var positions := UnusedPositions(conduits, observed);
  }

  lemma {:induction false} UnusedPositions(conduits: seq<Conduit>, observed: set<(string, string)>)
    returns (positions: seq<nat>)
    ensures UnusedAt(conduits, observed, Unused(conduits, observed), positions)
  {
    hide Unused, UnusedAt;
    if conduits == [] {
      positions := [];
      NoneUnused(observed);
    } else {
      var n := |conduits| - 1;
      var before := UnusedPositions(conduits[..n], observed);
      UnusedLast(conduits[..n], conduits[n], observed);
      assert conduits == conduits[..n] + [conduits[n]];
      OneMoreUnused(conduits[..n], observed, Unused(conduits[..n], observed), before, conduits[n]);
      positions := if (conduits[n].from, conduits[n].to) in observed then before else before + [n];
    }
  }

  lemma NoneUnused(observed: set<(string, string)>)
    ensures UnusedAt([], observed, Unused([], observed), [])
  {
  }

  function Kept(c: Conduit, observed: set<(string, string)>): seq<(string, string)> {
    if (c.from, c.to) in observed then [] else [(c.from, c.to)]
  }

  lemma UnusedFirst(conduits: seq<Conduit>, observed: set<(string, string)>)
    requires conduits != []
    ensures Unused(conduits, observed) == Kept(conduits[0], observed) + Unused(conduits[1..], observed)
  {
  }

  lemma {:induction false} UnusedLast(conduits: seq<Conduit>, c: Conduit, observed: set<(string, string)>)
    ensures Unused(conduits + [c], observed) == Unused(conduits, observed) + Kept(c, observed)
  {
    if conduits == [] {
      assert [] + [c] == [c] && [c][1..] == [];
      UnusedFirst([c], observed);
    } else {
      UnusedFirst(conduits, observed);
      UnusedFirst(conduits + [c], observed);
      UnusedLast(conduits[1..], c, observed);
      hide Unused, Kept;
      assert (conduits + [c])[1..] == conduits[1..] + [c];
    }
  }

  lemma OneMoreUnused(conduits: seq<Conduit>, observed: set<(string, string)>, pairs: seq<(string, string)>,
                      positions: seq<nat>, c: Conduit)
    requires UnusedAt(conduits, observed, pairs, positions)
    ensures UnusedAt(conduits + [c], observed, pairs + Kept(c, observed),
                     if (c.from, c.to) in observed then positions else positions + [|conduits|])
  {
    assert pairs + [] == pairs;
    forall j
      ensures j in positions + [|conduits|] <==> j in positions || j == |conduits|
    {
    }
    forall j | j in positions
      ensures j < |conduits|
    {
      var i :| 0 <= i < |positions| && positions[i] == j;
    }
  }
}
