/**
 What a composed registry routes, and why the order it was composed in does not matter.
 */
module RegistryLaws {
  import opened Registry
  import opened Sorting

  // ---------- routes and declarations ----------

  /** Every routed wire has one unit, and offers exactly the versions that unit declares on it. */
  lemma RoutesExactly(exts: seq<Extension>, core: seq<Descriptor>, routes: Routes, wire: string)
    requires Composable(exts, core) && RoutesAre(routes, AllClaims(Units(exts)))
    ensures wire in routes <==> exists u :: u in Units(exts) && Claims(u.descriptor, wire)
    ensures wire in routes ==>
              && Increasing(routes[wire].versions)
              && exists u :: && u in Units(exts) && u.extension == routes[wire].extension
                             && u.descriptor.id == routes[wire].id
                             && forall v: nat :: v in routes[wire].versions <==> Serves(u.descriptor, wire, v)
  {
    forall u | u in Units(exts) && Claims(u.descriptor, wire)
      ensures wire in routes
    {
      ClaimedWireRouted(Units(exts), routes, u, wire);
    }
    if wire in routes {
      var u := RouteHasUnit(Units(exts), routes, wire);
      forall v: nat
        ensures v in routes[wire].versions <==> Serves(u.descriptor, wire, v)
      {
        VersionServed(exts, core, routes, wire, u, v);
      }
    }
  }

  lemma VersionServed(exts: seq<Extension>, core: seq<Descriptor>, routes: Routes, wire: string, u: Unit, v: nat)
    requires Composable(exts, core) && RoutesAre(routes, AllClaims(Units(exts)))
    requires u in Units(exts) && wire in routes && u.descriptor.id == routes[wire].id
    requires u.extension == routes[wire].extension
    ensures v in routes[wire].versions <==> Serves(u.descriptor, wire, v)
  {
    var us := Units(exts);
    if v in routes[wire].versions {
      var w := ClaimedBy(us, Claim(routes[wire].extension, routes[wire].id, v, wire));
      SameUnit(us, u, w);
    }
    if Serves(u.descriptor, wire, v) {
      var k :| k in u.descriptor.contracts && k.version == v && wire in k.wires;
      var c := Claim(u.extension, u.descriptor.id, v, wire);
      assert c in AllClaims(us);
      assert Holds(routes, c);
    }
  }

  lemma SameUnit(us: seq<Unit>, u: Unit, w: Unit)
    requires DistinctUnits(us) && u in us && w in us && u.descriptor.id == w.descriptor.id
    ensures u == w
  {
    var i :| 0 <= i < |us| && us[i] == u;
    var j :| 0 <= j < |us| && us[j] == w;
  }

  // ---------- dispatch ----------

  /** The `contract_version` a payload names. */
  datatype Named = Absent | NotANumber | Number(n: nat)

  datatype Dispatched = Unrouted | Refused | Handled(extension: nat)

  predicate NamedVersionOffered(route: Route, named: Named) {
    match named
    case Absent => true
    case NotANumber => false
    case Number(n) => n in route.versions
  }

  /** `dispatch`, with `check_named_version`. */
  function Dispatch(registry: Registry, wire: string, named: Named): Dispatched {
    if wire !in registry.routes || registry.routes[wire].extension >= |registry.extensions| then Unrouted
    else if !NamedVersionOffered(registry.routes[wire], named) then Refused
    else Handled(registry.routes[wire].extension)
  }

  lemma {:induction false} UnitsInRange(exts: seq<Extension>, u: Unit)
    requires u in Units(exts)
    ensures u.extension < |exts| && exts[u.extension].declares.Some?
    ensures u.descriptor in exts[u.extension].declares.value
  {
    var last := exts[|exts| - 1];
    if u in Units(exts[..|exts| - 1]) {
      UnitsInRange(exts[..|exts| - 1], u);
    }
  }

  /**
   A message with a named version reaches a handler exactly when some contract declares that
   version on that wire, and then it is the declaring extension's; without one, exactly when
   the wire is declared at all.
   */
  lemma DispatchExactly(exts: seq<Extension>, core: seq<Descriptor>, registry: Registry, wire: string, named: Named, e: nat)
    requires Composable(exts, core)
    requires registry.extensions == exts && RoutesAre(registry.routes, AllClaims(Units(exts)))
    ensures Dispatch(registry, wire, named) == Handled(e) <==>
              match named
              case Absent => exists u :: u in Units(exts) && u.extension == e && Claims(u.descriptor, wire)
              case NotANumber => false
              case Number(n) => exists u :: u in Units(exts) && u.extension == e && Serves(u.descriptor, wire, n)
    ensures Dispatch(registry, wire, named) == Unrouted <==> forall u :: u in Units(exts) ==> !Claims(u.descriptor, wire)
  {
    var us, routes := Units(exts), registry.routes;
    if wire in routes {
      var u := RouteHasUnit(us, routes, wire);
      UnitsInRange(exts, u);
      if named.Number? {
        VersionServed(exts, core, routes, wire, u, named.n);
      }
    }
    forall u | u in us && Claims(u.descriptor, wire)
      ensures wire in routes && routes[wire].extension == u.extension && routes[wire].id == u.descriptor.id
    {
      ClaimedWireRouted(us, routes, u, wire);
    }
    if named.Number? {
      forall u | u in us && Serves(u.descriptor, wire, named.n)
        ensures Claims(u.descriptor, wire) && named.n in routes[wire].versions
      {
        assert Claims(u.descriptor, wire);
        VersionServed(exts, core, routes, wire, u, named.n);
      }
    }
  }

  // ---------- order ----------

  /** How often each unit id is declared. */
  function Ids(ds: seq<Descriptor>): multiset<string> {
    if ds == [] then multiset{} else multiset{ds[0].id} + Ids(ds[1..])
  }

  function DeclaredIds(e: Extension): multiset<string> {
    if e.declares.Some? then Ids(e.declares.value) else multiset{}
  }

  function AllIds(exts: seq<Extension>): multiset<string> {
    if exts == [] then multiset{} else DeclaredIds(exts[0]) + AllIds(exts[1..])
  }

  lemma {:induction false} IdsAppend(a: seq<Descriptor>, b: seq<Descriptor>)
    ensures Ids(a + b) == Ids(a) + Ids(b)
  {
    if a == [] {
      assert a + b == b;
    } else {
      assert (a + b)[1..] == a[1..] + b;
      IdsAppend(a[1..], b);
    }
  }

  lemma {:induction false} AllIdsAppend(a: seq<Extension>, b: seq<Extension>)
    ensures AllIds(a + b) == AllIds(a) + AllIds(b)
  {
    if a == [] {
      assert a + b == b;
    } else {
      assert (a + b)[1..] == a[1..] + b;
      AllIdsAppend(a[1..], b);
    }
  }

  lemma AllIdsMiddle(front: seq<Extension>, x: Extension, back: seq<Extension>)
    ensures AllIds(front + [x] + back) == DeclaredIds(x) + AllIds(front + back)
  {
    AllIdsAppend(front + [x], back);
    AllIdsAppend(front, [x]);
    AllIdsAppend(front, back);
    assert AllIds([x]) == DeclaredIds(x) + AllIds([]);
  }

  lemma RemoveFirst(a: seq<Extension>, b: seq<Extension>) returns (front: seq<Extension>, back: seq<Extension>)
    requires a != [] && multiset(a) == multiset(b)
    ensures b == front + [a[0]] + back && multiset(a[1..]) == multiset(front + back)
  {
    assert a[0] in multiset(b);
    var k :| 0 <= k < |b| && b[k] == a[0];
    front, back := b[..k], b[k + 1..];
    assert b == front + [a[0]] + back;
    CountWithout(front, a[0], back);
    CountAfterFirst(a);
  }

  lemma CountAfterFirst(a: seq<Extension>)
    requires a != []
    ensures multiset(a[1..]) == multiset(a) - multiset{a[0]}
  {
    assert a == [a[0]] + a[1..];
  }

  lemma CountWithout(front: seq<Extension>, x: Extension, back: seq<Extension>)
    ensures multiset(front + back) == multiset(front + [x] + back) - multiset{x}
  {
    assert multiset(front + [x] + back) == multiset(front) + multiset{x} + multiset(back);
  }

  /** Reordering the extensions does not change how often an id is declared. */
  lemma {:induction false} AllIdsPermute(a: seq<Extension>, b: seq<Extension>)
    requires multiset(a) == multiset(b)
    ensures AllIds(a) == AllIds(b)
    decreases |a|
  {
    if a == [] {
      assert |multiset(b)| == 0;
    } else {
      var front, back := RemoveFirst(a, b);
      AllIdsPermute(a[1..], front + back);
      AllIdsMiddle(front, a[0], back);
    }
  }

  lemma LastUnits(init: seq<Extension>, last: Extension)
    ensures Ids(Descriptors(Units(init + [last]))) == Ids(Descriptors(Units(init))) + DeclaredIds(last)
  {
    assert (init + [last])[..|init|] == init;
    var mine := if last.declares.Some? then UnitsOf(|init|, last.declares.value) else [];
    assert Units(init + [last]) == Units(init) + mine;
    assert Descriptors(Units(init) + mine) == Descriptors(Units(init)) + Descriptors(mine);
    IdsAppend(Descriptors(Units(init)), Descriptors(mine));
    if last.declares.Some? {
      assert Descriptors(mine) == last.declares.value;
    } else {
      assert Descriptors(mine) == [];
    }
  }

  lemma {:induction false} IdsAreDeclared(exts: seq<Extension>)
    ensures Ids(Descriptors(Units(exts))) == AllIds(exts)
  {
    if exts == [] {
      assert Descriptors([]) == [];
    } else {
      var init, last := exts[..|exts| - 1], exts[|exts| - 1];
      assert exts == init + [last];
      IdsAreDeclared(init);
      LastUnits(init, last);
      AllIdsAppend(init, [last]);
      assert AllIds([last]) == DeclaredIds(last) + AllIds([]);
    }
  }

  predicate DistinctIds(ds: seq<Descriptor>) {
    forall i, j :: 0 <= i < j < |ds| ==> ds[i].id != ds[j].id
  }

  lemma {:induction false} IdsCount(ds: seq<Descriptor>, id: string)
    ensures Ids(ds)[id] > 0 <==> exists d :: d in ds && d.id == id
  {
    if ds != [] {
      IdsCount(ds[1..], id);
      assert forall d :: d in ds <==> d == ds[0] || d in ds[1..];
    }
  }

  /** Unit ids are distinct exactly when none is declared twice. */
  lemma {:induction false} DistinctMeansOnce(ds: seq<Descriptor>)
    ensures DistinctIds(ds) <==> forall id :: Ids(ds)[id] <= 1
  {
    if ds != [] {
      var rest := ds[1..];
      DistinctMeansOnce(rest);
      IdsCount(rest, ds[0].id);
      assert Ids(ds) == multiset{ds[0].id} + Ids(rest);
      if DistinctIds(ds) {
        assert DistinctIds(rest);
        forall d | d in rest
          ensures d.id != ds[0].id
        {
          var k :| 0 <= k < |rest| && rest[k] == d;
          assert ds[k + 1] == d;
        }
      }
      if forall id :: Ids(ds)[id] <= 1 {
        assert forall id :: Ids(rest)[id] <= Ids(ds)[id];
        assert Ids(ds)[ds[0].id] == 1 + Ids(rest)[ds[0].id];
        forall i, j | 0 <= i < j < |ds|
          ensures ds[i].id != ds[j].id
        {
          assert ds[j] == rest[j - 1] && rest[j - 1] in rest;
          assert i > 0 ==> ds[i] == rest[i - 1];
        }
      }
    }
  }

  lemma {:induction false} UnitsMembers(exts: seq<Extension>, d: Descriptor)
    ensures (exists u :: u in Units(exts) && u.descriptor == d)
       <==> (exists e :: e in exts && e.declares.Some? && d in e.declares.value)
  {
    if exts != [] {
      var init, last := exts[..|exts| - 1], exts[|exts| - 1];
      assert forall e :: e in exts <==> e in init || e == last;
      UnitsMembers(init, d);
      if last.declares.Some? {
        var mine := UnitsOf(|exts| - 1, last.declares.value);
        assert Units(exts) == Units(init) + mine;
        if d in last.declares.value {
          var k :| 0 <= k < |last.declares.value| && last.declares.value[k] == d;
          assert mine[k] in Units(exts) && mine[k].descriptor == d;
        }
        if u :| u in Units(init) && u.descriptor == d {
          assert u in Units(exts);
        }
      }
    }
  }

  ghost predicate Permuted<T>(a: seq<T>, b: seq<T>) {
    multiset(a) == multiset(b)
  }

  /** The descriptors of a unit list, wherever they come from. */
  lemma UnitElsewhere(exts: seq<Extension>, exts': seq<Extension>, u: Unit) returns (u': Unit)
    requires Permuted(exts, exts') && u in Units(exts)
    ensures u' in Units(exts') && u'.descriptor == u.descriptor
  {
    SameElements(exts, exts');
    UnitsMembers(exts, u.descriptor);
    UnitsMembers(exts', u.descriptor);
    assert exists v :: v in Units(exts) && v.descriptor == u.descriptor;
    u' :| u' in Units(exts') && u'.descriptor == u.descriptor;
  }

  lemma DistinctUnitsIds(us: seq<Unit>)
    ensures DistinctUnits(us) <==> DistinctIds(Descriptors(us))
  {
    var ds := Descriptors(us);
    if DistinctIds(ds) {
      forall i, j | 0 <= i < j < |us|
        ensures us[i].descriptor.id != us[j].descriptor.id
      {
        assert ds[i].id != ds[j].id;
      }
    }
  }

  lemma ComposableEitherWay(exts: seq<Extension>, core: seq<Descriptor>, exts': seq<Extension>, core': seq<Descriptor>)
    requires Permuted(exts, exts') && Permuted(core, core')
    requires Composable(exts, core)
    ensures Composable(exts', core')
  {
    SameElements(exts, exts');
    SameElements(core, core');
    assert DistinctUnits(Units(exts')) by {
      DistinctUnitsIds(Units(exts));
      DistinctUnitsIds(Units(exts'));
      IdsAreDeclared(exts);
      IdsAreDeclared(exts');
      AllIdsPermute(exts, exts');
      DistinctMeansOnce(Descriptors(Units(exts)));
      DistinctMeansOnce(Descriptors(Units(exts')));
    }
    assert WiresApart(Units(exts')) by {
      forall u, v, wire | u in Units(exts') && v in Units(exts') && Claims(u.descriptor, wire) && Claims(v.descriptor, wire)
        ensures u.descriptor.id == v.descriptor.id
      {
        var a := UnitElsewhere(exts', exts, u);
        var b := UnitElsewhere(exts', exts, v);
      }
    }
    assert CoreApart(Units(exts'), core') by {
      forall u, d, wire | u in Units(exts') && d in core'
        ensures !(Claims(u.descriptor, wire) && Claims(d, wire))
      {
        var a := UnitElsewhere(exts', exts, u);
      }
    }
  }

  /** Composition succeeds in every order of the extensions and of the core units, or in none. */
  lemma OrderDoesNotDecide(exts: seq<Extension>, core: seq<Descriptor>, exts': seq<Extension>, core': seq<Descriptor>)
    requires Permuted(exts, exts') && Permuted(core, core')
    ensures Composable(exts, core) <==> Composable(exts', core')
  {
    if Composable(exts, core) {
      ComposableEitherWay(exts, core, exts', core');
    }
    if Composable(exts', core') {
      ComposableEitherWay(exts', core', exts, core);
    }
  }

  /** And the routes are the same relation: same wires, units and versions. */
  lemma OrderDoesNotShow(exts: seq<Extension>, core: seq<Descriptor>, routes: Routes,
                         exts': seq<Extension>, core': seq<Descriptor>, routes': Routes, wire: string)
    requires Permuted(exts, exts') && Permuted(core, core') && Composable(exts, core)
    requires RoutesAre(routes, AllClaims(Units(exts))) && RoutesAre(routes', AllClaims(Units(exts')))
    ensures wire in routes <==> wire in routes'
    ensures wire in routes ==> routes'[wire].id == routes[wire].id && routes'[wire].versions == routes[wire].versions
    ensures wire in routes ==> routes[wire].extension < |exts| && routes'[wire].extension < |exts'|
                               && exts'[routes'[wire].extension] == exts[routes[wire].extension]
  {
    OrderDoesNotDecide(exts, core, exts', core');
    SameWires(exts, exts', routes, routes', wire);
    SameWires(exts', exts, routes', routes, wire);
    if wire in routes {
      SameVersions(exts, core, routes, exts', core', routes', wire);
      SameExtension(exts, core, routes, exts', core', routes', wire);
    }
  }

  lemma SameWires(exts: seq<Extension>, exts': seq<Extension>, routes: Routes, routes': Routes, wire: string)
    requires Permuted(exts, exts')
    requires RoutesAre(routes, AllClaims(Units(exts))) && RoutesAre(routes', AllClaims(Units(exts')))
    ensures wire in routes ==> wire in routes' && routes'[wire].id == routes[wire].id
  {
    if wire in routes {
      var u := RouteHasUnit(Units(exts), routes, wire);
      var u' := UnitElsewhere(exts, exts', u);
      ClaimedWireRouted(Units(exts'), routes', u', wire);
    }
  }

  lemma {:induction false} UnitAt(exts: seq<Extension>, p: nat, d: Descriptor)
    requires p < |exts| && exts[p].declares.Some? && d in exts[p].declares.value
    ensures Unit(p, d) in Units(exts)
  {
    if p < |exts| - 1 {
      UnitAt(exts[..|exts| - 1], p, d);
    } else {
      var ds := exts[p].declares.value;
      var k :| 0 <= k < |ds| && ds[k] == d;
      assert UnitsOf(p, ds)[k] == Unit(p, d);
    }
  }

  /** Renumbered or not, it is the same extension. */
  lemma SameExtension(exts: seq<Extension>, core: seq<Descriptor>, routes: Routes,
                      exts': seq<Extension>, core': seq<Descriptor>, routes': Routes, wire: string)
    requires Permuted(exts, exts') && Composable(exts', core')
    requires RoutesAre(routes, AllClaims(Units(exts))) && RoutesAre(routes', AllClaims(Units(exts')))
    requires wire in routes && wire in routes'
    ensures routes[wire].extension < |exts| && routes'[wire].extension < |exts'|
    ensures exts'[routes'[wire].extension] == exts[routes[wire].extension]
  {
    var u := RouteHasUnit(Units(exts), routes, wire);
    UnitsInRange(exts, u);
    var e := exts[u.extension];
    assert e in exts;
    SameElements(exts, exts');
    var p :| 0 <= p < |exts'| && exts'[p] == e;
    UnitAt(exts', p, u.descriptor);
    ClaimedWireRouted(Units(exts'), routes', Unit(p, u.descriptor), wire);
  }

  lemma SameVersions(exts: seq<Extension>, core: seq<Descriptor>, routes: Routes,
                     exts': seq<Extension>, core': seq<Descriptor>, routes': Routes, wire: string)
    requires Permuted(exts, exts') && Composable(exts, core) && Composable(exts', core')
    requires RoutesAre(routes, AllClaims(Units(exts))) && RoutesAre(routes', AllClaims(Units(exts')))
    requires wire in routes && wire in routes'
    ensures routes'[wire].versions == routes[wire].versions
  {
    var u := RouteHasUnit(Units(exts), routes, wire);
    var u' := UnitElsewhere(exts, exts', u);
    ClaimedWireRouted(Units(exts'), routes', u', wire);
    forall v: nat
      ensures v in routes[wire].versions <==> v in routes'[wire].versions
    {
      VersionServed(exts, core, routes, wire, u, v);
      VersionServed(exts', core', routes', wire, u', v);
    }
    NumbersOrdered();
    IncreasingIsStrict(routes[wire].versions);
    IncreasingIsStrict(routes'[wire].versions);
    StrictIsUnique(routes[wire].versions, routes'[wire].versions, Le, Eq);
  }
}
