/**
 Runtime extension composition (crates/nession-agent/src/extension.rs).

 Every route is derived from what extensions declare; declarations that disagree fail the
 composition, naming both sides.
 */
module Registry {
  import opened Sorting
  import opened Wrappers

  datatype Contract = Contract(version: nat, wires: seq<string>)

  /** `valid` is the outcome of the descriptor's own self-check. */
  datatype Descriptor = Descriptor(id: string, valid: bool, contracts: seq<Contract>)

  /** `declares` is absent when the extension cannot name its own contracts. */
  datatype Extension = Extension(name: string, declares: Option<seq<Descriptor>>)

  datatype Route = Route(extension: nat, id: string, versions: seq<nat>)

  type Routes = map<string, Route>

  datatype Error =
    | InvalidDeclaration(owner: string)
    | InconsistentDescriptor(owner: string)
    | DeclaresNothing(owner: string)
    | DuplicateWireType(wire: string, first: string, second: string)
    | DuplicateProtocol(id: string, first: string, second: string)
    | DuplicateCoreWireType(wire: string, first: string, second: string)

  const CORE_OWNER: string := "nession-agent"

  // ---------- what is declared ----------

  predicate Serves(d: Descriptor, wire: string, version: nat) {
    exists c :: c in d.contracts && c.version == version && wire in c.wires
  }

  predicate Claims(d: Descriptor, wire: string) {
    exists c :: c in d.contracts && wire in c.wires
  }

  /** A declared unit and the position of the extension that declares it. */
  datatype Unit = Unit(extension: nat, descriptor: Descriptor)

  function UnitsOf(extension: nat, ds: seq<Descriptor>): (us: seq<Unit>)
    ensures |us| == |ds| && forall i :: 0 <= i < |ds| ==> us[i] == Unit(extension, ds[i])
  {
    seq(|ds|, i requires 0 <= i < |ds| => Unit(extension, ds[i]))
  }

  /** All declared units, extension by extension. */
  function Units(exts: seq<Extension>): seq<Unit> {
    if exts == [] then []
    else
      var last := exts[|exts| - 1];
      Units(exts[..|exts| - 1]) + (if last.declares.Some? then UnitsOf(|exts| - 1, last.declares.value) else [])
  }

  predicate DeclarationOk(e: Extension) {
    && e.declares.Some? && e.declares.value != []
    && forall d :: d in e.declares.value ==> d.valid
  }

  predicate DistinctUnits(us: seq<Unit>) {
    forall i, j :: 0 <= i < j < |us| ==> us[i].descriptor.id != us[j].descriptor.id
  }

  /** No wire is claimed by two units. */
  ghost predicate WiresApart(us: seq<Unit>) {
    forall u, v, wire :: u in us && v in us && Claims(u.descriptor, wire) && Claims(v.descriptor, wire)
                         ==> u.descriptor.id == v.descriptor.id
  }

  ghost predicate CoreApart(us: seq<Unit>, core: seq<Descriptor>) {
    && (forall u, d, wire :: u in us && d in core ==> !(Claims(u.descriptor, wire) && Claims(d, wire)))
    && (forall d, d', wire :: d in core && d' in core && Claims(d, wire) && Claims(d', wire) ==> d.id == d'.id)
  }

  /** When a set of extensions and core units can be composed. */
  ghost predicate Composable(exts: seq<Extension>, core: seq<Descriptor>) {
    && AllDeclared(exts)
    && DistinctUnits(Units(exts))
    && WiresApart(Units(exts))
    && (forall d :: d in core ==> d.valid)
    && CoreApart(Units(exts), core)
  }

  /** A reported conflict is one that the declarations have. */
  ghost predicate Truthful(e: Error, exts: seq<Extension>, core: seq<Descriptor>) {
    match e
    case InvalidDeclaration(owner) => exists x :: x in exts && x.name == owner && x.declares.None?
    case DeclaresNothing(owner) => exists x :: x in exts && x.name == owner && x.declares == Some([])
    case InconsistentDescriptor(owner) =>
      || (exists x, d :: x in exts && x.name == owner && x.declares.Some? && d in x.declares.value && !d.valid)
      || (owner == CORE_OWNER && exists d :: d in core && !d.valid)
    case DuplicateProtocol(id, first, second) =>
      exists i, j :: 0 <= i < j < |Units(exts)| && TwoUnits(exts, Units(exts)[i], Units(exts)[j], first, second)
                     && Units(exts)[i].descriptor.id == id == Units(exts)[j].descriptor.id
    case DuplicateWireType(wire, first, second) =>
      exists u, v :: u in Units(exts) && v in Units(exts) && TwoUnits(exts, u, v, first, second)
                     && u.descriptor.id != v.descriptor.id
                     && Claims(u.descriptor, wire) && Claims(v.descriptor, wire)
    case DuplicateCoreWireType(wire, first, second) =>
      || (exists u, d :: u in Units(exts) && d in core && NamedBy(exts, u, first) && d.id == second
                         && Claims(u.descriptor, wire) && Claims(d, wire))
      || (exists d, d' :: d in core && d' in core && d.id == first && d'.id == second && first != second
                          && Claims(d, wire) && Claims(d', wire))
  }

  predicate NamedBy(exts: seq<Extension>, u: Unit, name: string) {
    u.extension < |exts| && exts[u.extension].name == name
  }

  predicate TwoUnits(exts: seq<Extension>, u: Unit, v: Unit, first: string, second: string) {
    NamedBy(exts, u, first) && NamedBy(exts, v, second)
  }

  lemma TruthfulRefutes(e: Error, exts: seq<Extension>, core: seq<Descriptor>)
    requires Truthful(e, exts, core)
    ensures !Composable(exts, core)
  {}

  // ---------- versions ----------

  predicate Le(a: nat, b: nat) { a <= b }

  predicate Eq(a: nat, b: nat) { a == b }

  predicate Increasing(vs: seq<nat>) {
    forall i, j :: 0 <= i < j < |vs| ==> vs[i] < vs[j]
  }

  /** Push, sort, deduplicate. */
  function WithVersion(vs: seq<nat>, v: nat): seq<nat> {
    Dedup(Sort(vs + [v], Le), Eq)
  }

  lemma NumbersOrdered()
    ensures Orders(Le, Eq)
  {}

  /** Increasing is what `Sorting` calls strict. */
  lemma IncreasingIsStrict(vs: seq<nat>)
    ensures Increasing(vs) <==> Strict(vs, Le, Eq)
  {
    if Strict(vs, Le, Eq) {
      forall i, j | 0 <= i < j < |vs|
        ensures vs[i] < vs[j]
      {
        assert Le(vs[i], vs[j]) && !Eq(vs[i], vs[j]);
      }
    }
  }

  lemma WithVersionKeeps(vs: seq<nat>, v: nat)
    ensures Increasing(WithVersion(vs, v))
    ensures forall x :: x in WithVersion(vs, v) <==> x in vs || x == v
  {
    NumbersOrdered();
    SortDedup(vs + [v], Le, Eq);
    IncreasingIsStrict(WithVersion(vs, v));
    forall x | x in vs + [v]
      ensures x in WithVersion(vs, v)
    {
      assert Has(WithVersion(vs, v), x, Eq);
    }
  }

  // ---------- routes ----------

  /** One claim of a wire by a version of a unit. */
  datatype Claim = Claim(extension: nat, id: string, version: nat, wire: string)

  predicate Holds(routes: Routes, c: Claim) {
    && c.wire in routes
    && routes[c.wire].extension == c.extension
    && routes[c.wire].id == c.id
    && c.version in routes[c.wire].versions
  }

  /** The routes are the claims, and nothing but the claims. */
  ghost predicate RoutesAre(routes: Routes, claims: set<Claim>) {
    && (forall c :: c in claims ==> Holds(routes, c))
    && (forall w :: w in routes ==> routes[w].versions != [] && Increasing(routes[w].versions))
    && (forall w, v :: w in routes && v in routes[w].versions ==>
          Claim(routes[w].extension, routes[w].id, v, w) in claims)
  }

  /** The innermost step: one wire of one contract. */
  method ClaimWire(routes: Routes, ghost claims: set<Claim>, c: Claim) returns (ok: bool, routes': Routes)
    requires RoutesAre(routes, claims)
    ensures ok ==> RoutesAre(routes', claims + {c})
    ensures !ok ==> c.wire in routes && (routes[c.wire].extension != c.extension || routes[c.wire].id != c.id)
  {
    if c.wire in routes {
      var route := routes[c.wire];
      if route.extension != c.extension || route.id != c.id {
        return false, routes;
      }
      WithVersionKeeps(route.versions, c.version);
      assert c.version in WithVersion(route.versions, c.version);
      return true, routes[c.wire := route.(versions := WithVersion(route.versions, c.version))];
    } else {
      return true, routes[c.wire := Route(c.extension, c.id, [c.version])];
    }
  }

  function WireClaims(u: Unit, version: nat, wires: seq<string>): set<Claim> {
    set wire | wire in wires :: Claim(u.extension, u.descriptor.id, version, wire)
  }

  function ContractClaims(u: Unit, contracts: seq<Contract>): set<Claim> {
    set c, wire | c in contracts && wire in c.wires ::
      Claim(u.extension, u.descriptor.id, c.version, wire)
  }

  function UnitClaims(u: Unit): set<Claim> {
    set c, wire | c in u.descriptor.contracts && wire in c.wires ::
      Claim(u.extension, u.descriptor.id, c.version, wire)
  }

  function AllClaims(us: seq<Unit>): set<Claim> {
    set u, c, wire | u in us && c in u.descriptor.contracts && wire in c.wires ::
      Claim(u.extension, u.descriptor.id, c.version, wire)
  }

  lemma ContractClaimsAppend(u: Unit, contracts: seq<Contract>, c: Contract)
    ensures ContractClaims(u, contracts + [c]) == ContractClaims(u, contracts) + WireClaims(u, c.version, c.wires)
  {}

  /** The loop over one contract's wires; `mine` are claims of the same unit. */
  lemma OneMoreWire(claims: set<Claim>, mine: set<Claim>, u: Unit, version: nat, wires: seq<string>, j: nat)
    requires j < |wires|
    ensures claims + (mine + WireClaims(u, version, wires[..j])) + {Claim(u.extension, u.descriptor.id, version, wires[j])}
         == claims + (mine + WireClaims(u, version, wires[..j + 1]))
  {
    assert wires[..j + 1] == wires[..j] + [wires[j]];
  }

  method ClaimWires(routes: Routes, ghost claims: set<Claim>, ghost mine: set<Claim>, u: Unit,
                    version: nat, wires: seq<string>)
    returns (conflict: Option<string>, routes': Routes)
    requires RoutesAre(routes, claims + mine)
    requires forall c :: c in mine ==> c.extension == u.extension && c.id == u.descriptor.id
    ensures conflict.None? ==> RoutesAre(routes', claims + (mine + WireClaims(u, version, wires)))
    ensures conflict.Some? ==> conflict.value in wires && OlderClaim(routes', claims, u, conflict.value)
  {
    routes' := routes;
    assert claims + (mine + WireClaims(u, version, wires[..0])) == claims + mine;
    for j := 0 to |wires|
      invariant RoutesAre(routes', claims + (mine + WireClaims(u, version, wires[..j])))
    {
      ghost var done := mine + WireClaims(u, version, wires[..j]);
      var c := Claim(u.extension, u.descriptor.id, version, wires[j]);
      var ok, next := ClaimWire(routes', claims + done, c);
      if !ok {
        ConflictIsOlder(routes', claims, done, u, c);
        return Some(wires[j]), routes';
      }
      routes' := next;
      OneMoreWire(claims, mine, u, version, wires, j);
    }
    assert wires[..|wires|] == wires;
    conflict := None;
  }

  /** Another unit claimed this wire before, and the route shows it. */
  ghost predicate OlderClaim(routes: Routes, claims: set<Claim>, u: Unit, wire: string) {
    exists c :: c in claims && c.wire == wire && (c.extension != u.extension || c.id != u.descriptor.id)
                && wire in routes && routes[wire].extension == c.extension
  }

  /** The loop over one descriptor's contracts. */
  method ClaimUnit(routes: Routes, ghost claims: set<Claim>, u: Unit)
    returns (conflict: Option<string>, routes': Routes)
    requires RoutesAre(routes, claims)
    ensures conflict.None? ==> RoutesAre(routes', claims + UnitClaims(u))
    ensures conflict.Some? ==>
              Claims(u.descriptor, conflict.value) && OlderClaim(routes', claims, u, conflict.value)
  {
    routes' := routes;
    var contracts := u.descriptor.contracts;
    assert claims + ContractClaims(u, contracts[..0]) == claims;
    for i := 0 to |contracts|
      invariant RoutesAre(routes', claims + ContractClaims(u, contracts[..i]))
    {
      ghost var done := ContractClaims(u, contracts[..i]);
      var contract := contracts[i];
      assert contract in contracts;
      conflict, routes' := ClaimWires(routes', claims, done, u, contract.version, contract.wires);
      if conflict.Some? {
        return;
      }
      ContractClaimsAppend(u, contracts[..i], contract);
      assert contracts[..i + 1] == contracts[..i] + [contract];
    }
    assert contracts[..|contracts|] == contracts;
    assert ContractClaims(u, contracts) == UnitClaims(u);
    conflict := None;
  }

  lemma ConflictIsOlder(routes: Routes, claims: set<Claim>, done: set<Claim>, u: Unit, c: Claim)
    requires RoutesAre(routes, claims + done)
    requires forall d :: d in done ==> d.extension == u.extension && d.id == u.descriptor.id
    requires c.extension == u.extension && c.id == u.descriptor.id
    requires c.wire in routes && (routes[c.wire].extension != c.extension || routes[c.wire].id != c.id)
    ensures OlderClaim(routes, claims, u, c.wire)
  {
    var route := routes[c.wire];
    var v := route.versions[0];
    assert v in route.versions;
    var o := Claim(route.extension, route.id, v, c.wire);
    assert o in claims + done;
  }

  // ---------- composing ----------

  /** What holds after the units `us` have been taken in. */
  ghost predicate Composed(exts: seq<Extension>, us: seq<Unit>, routes: Routes, owners: map<string, string>) {
    && RoutesAre(routes, AllClaims(us))
    && DistinctUnits(us) && WiresApart(us)
    && (forall u :: u in us ==> u.descriptor.valid && OwnedBy(exts, owners, u))
    && (forall id :: id in owners ==> exists u :: u in us && u.descriptor.id == id)
  }

  predicate OwnedBy(exts: seq<Extension>, owners: map<string, string>, u: Unit) {
    u.descriptor.id in owners && NamedBy(exts, u, owners[u.descriptor.id])
  }

  lemma AllClaimsAppend(us: seq<Unit>, u: Unit)
    ensures AllClaims(us + [u]) == AllClaims(us) + UnitClaims(u)
  {}

  lemma ClaimedBy(us: seq<Unit>, c: Claim) returns (u: Unit)
    requires c in AllClaims(us)
    ensures u in us && u.extension == c.extension && u.descriptor.id == c.id
    ensures Serves(u.descriptor, c.wire, c.version) && Claims(u.descriptor, c.wire)
  {
    var v, k, wire :| v in us && k in v.descriptor.contracts && wire in k.wires
                      && c == Claim(v.extension, v.descriptor.id, k.version, wire);
    u := v;
  }

  lemma UnitHasClaim(us: seq<Unit>, u: Unit, wire: string) returns (c: Claim)
    requires u in us && Claims(u.descriptor, wire)
    ensures c in AllClaims(us) && c.wire == wire && c.extension == u.extension && c.id == u.descriptor.id
  {
    var k :| k in u.descriptor.contracts && wire in k.wires;
    c := Claim(u.extension, u.descriptor.id, k.version, wire);
  }

  /** One descriptor: checked, owned, claimed. */
  method AddUnit(exts: seq<Extension>, ghost core: seq<Descriptor>, ghost us: seq<Unit>,
                 routes: Routes, owners: map<string, string>, u: Unit)
    returns (error: Option<Error>, routes': Routes, owners': map<string, string>)
    requires Composed(exts, us, routes, owners)
    requires u.extension < |exts| && us + [u] <= Units(exts)
    requires exts[u.extension].declares.Some? && u.descriptor in exts[u.extension].declares.value
    ensures error.None? ==> Composed(exts, us + [u], routes', owners')
    ensures error.Some? ==> Truthful(error.value, exts, core)
  {
    routes', owners' := routes, owners;
    var owner := exts[u.extension].name;
    var id := u.descriptor.id;
    if !u.descriptor.valid {
      return Some(InconsistentDescriptor(owner)), routes', owners';
    }
    if id in owners {
      NamedTwice(exts, core, us, owners, u);
      return Some(DuplicateProtocol(id, owners[id], owner)), routes', owners';
    }
    var conflict;
    conflict, routes' := ClaimUnit(routes, AllClaims(us), u);
    if conflict.Some? {
      ghost var c :| c in AllClaims(us) && c.wire == conflict.value
                     && (c.extension != u.extension || c.id != u.descriptor.id)
                     && routes'[conflict.value].extension == c.extension;
      ClaimedTwice(exts, core, us, owners, u, conflict.value, c);
      var first := exts[routes'[conflict.value].extension].name;
      return Some(DuplicateWireType(conflict.value, first, owner)), routes', owners';
    }
    AllClaimsAppend(us, u);
    owners' := owners[id := owner];
    StillApart(exts, us, routes', owners, u, owners');
    return None, routes', owners';
  }

  lemma StillApart(exts: seq<Extension>, us: seq<Unit>, routes: Routes, owners: map<string, string>,
                   u: Unit, owners': map<string, string>)
    requires DistinctUnits(us) && WiresApart(us)
    requires forall v :: v in us ==> v.descriptor.valid && OwnedBy(exts, owners, v)
    requires forall id :: id in owners ==> exists v :: v in us && v.descriptor.id == id
    requires RoutesAre(routes, AllClaims(us + [u]))
    requires u.extension < |exts| && u.descriptor.valid && u.descriptor.id !in owners
    requires owners' == owners[u.descriptor.id := exts[u.extension].name]
    ensures Composed(exts, us + [u], routes, owners')
  {
    var all := us + [u];
    assert forall v :: v in all <==> v in us || v == u;
    forall v | v in all
      ensures v.descriptor.valid && OwnedBy(exts, owners', v)
    {
      assert v in us ==> OwnedBy(exts, owners, v);
    }
    forall id | id in owners'
      ensures exists v :: v in all && v.descriptor.id == id
    {
      if id == u.descriptor.id {
        assert u in all;
      } else {
        var v :| v in us && v.descriptor.id == id;
        assert v in all;
      }
    }
    StillDistinct(exts, us, owners, u);
    RoutedApart(all, routes);
  }

  lemma StillDistinct(exts: seq<Extension>, us: seq<Unit>, owners: map<string, string>, u: Unit)
    requires DistinctUnits(us) && u.descriptor.id !in owners
    requires forall v :: v in us ==> OwnedBy(exts, owners, v)
    ensures DistinctUnits(us + [u])
  {
    var all := us + [u];
    forall i, j | 0 <= i < j < |all|
      ensures all[i].descriptor.id != all[j].descriptor.id
    {
      assert all[i] in us;
      assert OwnedBy(exts, owners, all[i]);
    }
  }

  /** Units whose claims are all routed claim no wire together. */
  lemma RoutedApart(us: seq<Unit>, routes: Routes)
    requires RoutesAre(routes, AllClaims(us))
    ensures WiresApart(us)
  {
    forall v, w, wire | v in us && w in us && Claims(v.descriptor, wire) && Claims(w.descriptor, wire)
      ensures v.descriptor.id == w.descriptor.id
    {
      var c := UnitHasClaim(us, v, wire);
      var d := UnitHasClaim(us, w, wire);
      assert Holds(routes, c) && Holds(routes, d);
    }
  }

  lemma PrefixUnits(us: seq<Unit>, u: Unit, all: seq<Unit>)
    requires us + [u] <= all
    ensures forall i :: 0 <= i < |us| ==> all[i] == us[i]
    ensures all[|us|] == u && u in all && forall v :: v in us ==> v in all
  {
    assert forall i :: 0 <= i < |us| ==> (us + [u])[i] == us[i];
    assert (us + [u])[|us|] == u;
  }

  /** What makes a report of a unit named twice true. */
  lemma NamedTwice(exts: seq<Extension>, core: seq<Descriptor>, us: seq<Unit>, owners: map<string, string>, u: Unit)
    requires forall v :: v in us ==> OwnedBy(exts, owners, v)
    requires exists v :: v in us && v.descriptor.id == u.descriptor.id
    requires u.extension < |exts| && us + [u] <= Units(exts)
    ensures u.descriptor.id in owners
    ensures Truthful(DuplicateProtocol(u.descriptor.id, owners[u.descriptor.id], exts[u.extension].name), exts, core)
  {
    var all := Units(exts);
    var i :| 0 <= i < |us| && us[i].descriptor.id == u.descriptor.id;
    assert OwnedBy(exts, owners, us[i]);
    PrefixUnits(us, u, all);
    TwiceAt(exts, core, i, |us|, owners[u.descriptor.id], exts[u.extension].name);
  }

  lemma TwiceAt(exts: seq<Extension>, core: seq<Descriptor>, i: nat, j: nat, first: string, second: string)
    requires i < j < |Units(exts)| && TwoUnits(exts, Units(exts)[i], Units(exts)[j], first, second)
    requires Units(exts)[i].descriptor.id == Units(exts)[j].descriptor.id
    ensures Truthful(DuplicateProtocol(Units(exts)[j].descriptor.id, first, second), exts, core)
  {}

  /** And of a wire claimed by two units. */
  lemma ClaimedTwice(exts: seq<Extension>, core: seq<Descriptor>, us: seq<Unit>, owners: map<string, string>,
                     u: Unit, wire: string, c: Claim)
    requires forall v :: v in us ==> OwnedBy(exts, owners, v)
    requires u.extension < |exts| && us + [u] <= Units(exts) && u.descriptor.id !in owners
    requires c in AllClaims(us) && c.wire == wire && Claims(u.descriptor, wire)
    ensures c.extension < |exts|
    ensures Truthful(DuplicateWireType(wire, exts[c.extension].name, exts[u.extension].name), exts, core)
  {
    var v := ClaimedBy(us, c);
    assert OwnedBy(exts, owners, v);
    var all := Units(exts);
    PrefixUnits(us, u, all);
    assert TwoUnits(exts, v, u, exts[c.extension].name, exts[u.extension].name);
  }

  lemma {:induction false} UnitsPrefix(exts: seq<Extension>, i: nat)
    requires i <= |exts|
    ensures Units(exts[..i]) <= Units(exts)
  {
    if i == |exts| {
      assert exts[..i] == exts;
    } else {
      var init := exts[..|exts| - 1];
      UnitsPrefix(init, i);
      assert init[..i] == exts[..i];
    }
  }

  lemma UnitsStep(exts: seq<Extension>, i: nat)
    requires i < |exts| && exts[i].declares.Some?
    ensures Units(exts[..i + 1]) == Units(exts[..i]) + UnitsOf(i, exts[i].declares.value)
  {
    assert exts[..i + 1][..i] == exts[..i];
  }

  /** The loop over one extension's descriptors. */
  lemma OneMoreUnit(before: seq<Unit>, mine: seq<Unit>, j: nat)
    requires j < |mine|
    ensures before + mine[..j] + [mine[j]] == before + mine[..j + 1]
    ensures before + mine[..j + 1] <= before + mine
  {
    assert mine == mine[..j + 1] + mine[j + 1..];
  }

  method AddExtension(exts: seq<Extension>, ghost core: seq<Descriptor>, i: nat,
                      routes0: Routes, owners0: map<string, string>)
    returns (error: Option<Error>, routes: Routes, owners: map<string, string>)
    requires i < |exts| && exts[i].declares.Some?
    requires Composed(exts, Units(exts[..i]), routes0, owners0)
    ensures error.None? ==>
              && Composed(exts, Units(exts[..i + 1]), routes, owners)
              && forall d :: d in exts[i].declares.value ==> d.valid
    ensures error.Some? ==> Truthful(error.value, exts, core)
  {
    routes, owners := routes0, owners0;
    var ds := exts[i].declares.value;
    UnitsStep(exts, i);
    UnitsPrefix(exts, i + 1);
    ghost var before, mine := Units(exts[..i]), UnitsOf(i, ds);
    assert mine[..0] == [] && before + [] == before;
    for j := 0 to |ds|
      invariant Composed(exts, before + mine[..j], routes, owners)
    {
      var u := Unit(i, ds[j]);
      ghost var us := before + mine[..j];
      OneMoreUnit(before, mine, j);
      error, routes, owners := AddUnit(exts, core, us, routes, owners, u);
      if error.Some? {
        return;
      }
    }
    assert mine[..|ds|] == mine;
    AllValid(exts, before, i, ds, routes, owners);
    error := None;
  }

  lemma AllValid(exts: seq<Extension>, before: seq<Unit>, i: nat, ds: seq<Descriptor>, routes: Routes, owners: map<string, string>)
    requires Composed(exts, before + UnitsOf(i, ds), routes, owners)
    ensures forall d :: d in ds ==> d.valid
  {
    forall d | d in ds
      ensures d.valid
    {
      var k :| 0 <= k < |ds| && ds[k] == d;
      assert UnitsOf(i, ds)[k] in before + UnitsOf(i, ds);
    }
  }

  /** The extension half of `new`. */
  method ComposeExtensions(exts: seq<Extension>, ghost core: seq<Descriptor>)
    returns (error: Option<Error>, routes: Routes, ghost owners: map<string, string>)
    ensures error.None? ==>
              Composed(exts, Units(exts), routes, owners) && AllDeclared(exts)
    ensures error.Some? ==> Truthful(error.value, exts, core)
  {
    routes := map[];
    var ownerOf: map<string, string> := map[];
    owners := ownerOf;
    ComposedNone(exts);
    for i := 0 to |exts|
      invariant Composed(exts, Units(exts[..i]), routes, ownerOf)
      invariant AllDeclared(exts[..i])
    {
      var extension := exts[i];
      assert extension in exts;
      if extension.declares.None? {
        return Some(InvalidDeclaration(extension.name)), routes, ownerOf;
      }
      if extension.declares.value == [] {
        return Some(DeclaresNothing(extension.name)), routes, ownerOf;
      }
      error, routes, ownerOf := AddExtension(exts, core, i, routes, ownerOf);
      if error.Some? {
        return error, routes, ownerOf;
      }
      assert exts[..i + 1] == exts[..i] + [extension];
    }
    assert exts[..|exts|] == exts;
    return None, routes, ownerOf;
  }

  predicate AllDeclared(exts: seq<Extension>) {
    forall e :: e in exts ==> DeclarationOk(e)
  }

  lemma ComposedNone(exts: seq<Extension>)
    ensures Composed(exts, Units(exts[..0]), map[], map[])
  {
    assert Units(exts[..0]) == [];
    assert AllClaims([]) == {};
  }

  // ---------- the core half ----------

  datatype CoreClaim = CoreClaim(id: string, wire: string)

  ghost predicate CoreWiresAre(coreWires: map<string, string>, claims: set<CoreClaim>, routes: Routes) {
    && (forall c :: c in claims ==> c.wire in coreWires && coreWires[c.wire] == c.id && c.wire !in routes)
    && (forall w :: w in coreWires ==> CoreClaim(coreWires[w], w) in claims)
  }

  function CoreClaims(ds: seq<Descriptor>): set<CoreClaim> {
    set d, c, wire | d in ds && c in d.contracts && wire in c.wires :: CoreClaim(d.id, wire)
  }

  datatype CoreConflict = NoConflict | WithExtension(wire: string) | WithCore(wire: string, first: string)

  function CoreWireClaims(id: string, wires: seq<string>): set<CoreClaim> {
    set wire | wire in wires :: CoreClaim(id, wire)
  }

  /** The loop over one core contract's wires. */
  method ClaimCoreWires(routes: Routes, coreWires: map<string, string>, ghost claims: set<CoreClaim>,
                        id: string, wires: seq<string>)
    returns (conflict: CoreConflict, coreWires': map<string, string>)
    requires CoreWiresAre(coreWires, claims, routes)
    ensures conflict.NoConflict? ==> CoreWiresAre(coreWires', claims + CoreWireClaims(id, wires), routes)
    ensures conflict.WithExtension? ==> conflict.wire in routes && conflict.wire in wires
    ensures conflict.WithCore? ==>
              CoreClaim(conflict.first, conflict.wire) in claims && conflict.first != id && conflict.wire in wires
  {
    coreWires' := coreWires;
    for j := 0 to |wires|
      invariant CoreWiresAre(coreWires', claims + CoreWireClaims(id, wires[..j]), routes)
    {
      var wire := wires[j];
      if wire in routes {
        return WithExtension(wire), coreWires';
      }
      if wire in coreWires' && coreWires'[wire] != id {
        assert CoreClaim(coreWires'[wire], wire) in claims + CoreWireClaims(id, wires[..j]);
        return WithCore(wire, coreWires'[wire]), coreWires';
      }
      coreWires' := coreWires'[wire := id];
      assert wires[..j + 1] == wires[..j] + [wire];
      assert CoreWireClaims(id, wires[..j + 1]) == CoreWireClaims(id, wires[..j]) + {CoreClaim(id, wire)};
    }
    assert wires[..|wires|] == wires;
    conflict := NoConflict;
  }

  function CoreContractClaims(id: string, contracts: seq<Contract>): set<CoreClaim> {
    set c, wire | c in contracts && wire in c.wires :: CoreClaim(id, wire)
  }

  lemma CoreContractClaimsAppend(id: string, contracts: seq<Contract>, c: Contract)
    ensures CoreContractClaims(id, contracts + [c]) == CoreContractClaims(id, contracts) + CoreWireClaims(id, c.wires)
  {}

  /** The loop over one core descriptor's contracts. */
  lemma OneMoreCoreContract(claims: set<CoreClaim>, id: string, contracts: seq<Contract>, i: nat)
    requires i < |contracts|
    ensures claims + CoreContractClaims(id, contracts[..i]) + CoreWireClaims(id, contracts[i].wires)
         == claims + CoreContractClaims(id, contracts[..i + 1])
  {
    CoreContractClaimsAppend(id, contracts[..i], contracts[i]);
    assert contracts[..i + 1] == contracts[..i] + [contracts[i]];
  }

  method ClaimCore(routes: Routes, coreWires: map<string, string>, ghost claims: set<CoreClaim>, d: Descriptor)
    returns (conflict: CoreConflict, coreWires': map<string, string>)
    requires CoreWiresAre(coreWires, claims, routes)
    ensures conflict.NoConflict? ==> CoreWiresAre(coreWires', claims + CoreClaims([d]), routes)
    ensures conflict.WithExtension? ==> conflict.wire in routes && Claims(d, conflict.wire)
    ensures conflict.WithCore? ==>
              CoreClaim(conflict.first, conflict.wire) in claims && conflict.first != d.id && Claims(d, conflict.wire)
  {
    coreWires' := coreWires;
    var contracts := d.contracts;
    assert claims + CoreContractClaims(d.id, contracts[..0]) == claims;
    for i := 0 to |contracts|
      invariant CoreWiresAre(coreWires', claims + CoreContractClaims(d.id, contracts[..i]), routes)
    {
      ghost var done := CoreContractClaims(d.id, contracts[..i]);
      var contract := contracts[i];
      assert contract in contracts;
      conflict, coreWires' := ClaimCoreWires(routes, coreWires', claims + done, d.id, contract.wires);
      if !conflict.NoConflict? {
        return;
      }
      OneMoreCoreContract(claims, d.id, contracts, i);
    }
    assert contracts[..|contracts|] == contracts;
    assert CoreContractClaims(d.id, contracts) == CoreClaims([d]);
    conflict := NoConflict;
  }

  lemma CoreClaimsAppend(ds: seq<Descriptor>, d: Descriptor)
    ensures CoreClaims(ds + [d]) == CoreClaims(ds) + CoreClaims([d])
  {}

  lemma CoreClaimedBy(ds: seq<Descriptor>, c: CoreClaim) returns (d: Descriptor)
    requires c in CoreClaims(ds)
    ensures d in ds && d.id == c.id && Claims(d, c.wire)
  {
    var e, k, wire :| e in ds && k in e.contracts && wire in k.wires && c == CoreClaim(e.id, wire);
    d := e;
  }

  lemma RouteHasUnit(us: seq<Unit>, routes: Routes, wire: string) returns (u: Unit)
    requires RoutesAre(routes, AllClaims(us)) && wire in routes
    ensures u in us && u.extension == routes[wire].extension && u.descriptor.id == routes[wire].id
    ensures Claims(u.descriptor, wire)
  {
    var v := routes[wire].versions[0];
    assert v in routes[wire].versions;
    u := ClaimedBy(us, Claim(routes[wire].extension, routes[wire].id, v, wire));
  }

  lemma ClaimedWireRouted(us: seq<Unit>, routes: Routes, u: Unit, wire: string)
    requires RoutesAre(routes, AllClaims(us)) && u in us && Claims(u.descriptor, wire)
    ensures wire in routes && routes[wire].extension == u.extension && routes[wire].id == u.descriptor.id
  {
    var c := UnitHasClaim(us, u, wire);
    assert Holds(routes, c);
  }

  lemma CoreStaysApart(us: seq<Unit>, routes: Routes, core: seq<Descriptor>, coreWires: map<string, string>)
    requires RoutesAre(routes, AllClaims(us))
    requires CoreWiresAre(coreWires, CoreClaims(core), routes)
    ensures CoreApart(us, core)
  {
    forall u, d, wire | u in us && d in core
      ensures !(Claims(u.descriptor, wire) && Claims(d, wire))
    {
      if Claims(d, wire) {
        assert CoreClaim(d.id, wire) in CoreClaims(core);
        assert wire !in routes;
      }
      if Claims(u.descriptor, wire) {
        ClaimedWireRouted(us, routes, u, wire);
      }
    }
    forall d, d', wire | d in core && d' in core && Claims(d, wire) && Claims(d', wire)
      ensures d.id == d'.id
    {
      assert CoreClaim(d.id, wire) in CoreClaims(core) && CoreClaim(d'.id, wire) in CoreClaims(core);
    }
  }

  /** The core half of `new`. */
  method ComposeCore(exts: seq<Extension>, core: seq<Descriptor>, routes: Routes, ghost owners: map<string, string>)
    returns (error: Option<Error>)
    requires Composed(exts, Units(exts), routes, owners)
    ensures error.None? ==> CoreApart(Units(exts), core) && forall d :: d in core ==> d.valid
    ensures error.Some? ==> Truthful(error.value, exts, core)
  {
    var coreWires: map<string, string> := map[];
    for i := 0 to |core|
      invariant CoreWiresAre(coreWires, CoreClaims(core[..i]), routes)
      invariant forall k :: 0 <= k < i ==> core[k].valid
    {
      var d := core[i];
      assert d in core;
      if !d.valid {
        return Some(InconsistentDescriptor(CORE_OWNER));
      }
      var conflict;
      conflict, coreWires := ClaimCore(routes, coreWires, CoreClaims(core[..i]), d);
      match conflict {
        case NoConflict =>
          CoreClaimsAppend(core[..i], d);
          assert core[..i + 1] == core[..i] + [d];
        case WithExtension(wire) =>
          ghost var u := RouteHasUnit(Units(exts), routes, wire);
          assert OwnedBy(exts, owners, u);
          var first := exts[routes[wire].extension].name;
          assert NamedBy(exts, u, first);
          return Some(DuplicateCoreWireType(wire, first, d.id));
        case WithCore(wire, first) =>
          ghost var e := CoreClaimedBy(core[..i], CoreClaim(first, wire));
          assert e in core;
          return Some(DuplicateCoreWireType(wire, first, d.id));
      }
    }
    assert core[..|core|] == core;
    CoreStaysApart(Units(exts), routes, core, coreWires);
    return None;
  }

  /** What `new` builds: the routes, and the declarations the manifest is derived from. */
  datatype Registry = Registry(routes: Routes, declared: seq<Descriptor>, extensions: seq<Extension>)

  function Descriptors(us: seq<Unit>): (ds: seq<Descriptor>)
    ensures |ds| == |us| && forall i :: 0 <= i < |us| ==> ds[i] == us[i].descriptor
  {
    seq(|us|, i requires 0 <= i < |us| => us[i].descriptor)
  }

  /** `new`: composition succeeds exactly when the declarations are composable. */
  method Compose(exts: seq<Extension>, core: seq<Descriptor>) returns (r: Result<Registry, Error>)
    ensures r.Ok? <==> Composable(exts, core)
    ensures r.Ok? ==> RoutesAre(r.value.routes, AllClaims(Units(exts)))
    ensures r.Ok? ==> r.value.declared == Descriptors(Units(exts)) + core && r.value.extensions == exts
    ensures r.Err? ==> Truthful(r.error, exts, core)
  {
    var error, routes, owners := ComposeExtensions(exts, core);
    if error.Some? {
      TruthfulRefutes(error.value, exts, core);
      return Err(error.value);
    }
    var error' := ComposeCore(exts, core, routes, owners);
    if error'.Some? {
      TruthfulRefutes(error'.value, exts, core);
      return Err(error'.value);
    }
    return Ok(Registry(routes, Descriptors(Units(exts)) + core, exts));
  }
}
