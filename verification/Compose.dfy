/** The compose file's dependency engine: `VyomaCompose::start_order` and `visit`
    (crates/vyoma-compose/src/lib.rs) and the stop ordering of `vyoma down`
    (crates/vyoma/src/main.rs), which consumes the reversed start order. */
module Compose {
  import opened Outcomes
  import opened Text

  datatype BuildSource = BuildPath(path: string) | BuildConfig(context: string, vyomafile: Option<string>)

  datatype Service = Service(
    image: Option<string>,
    build: Option<BuildSource>,
    cpus: Option<nat>,
    memory: Option<nat>,
    ports: Option<seq<string>>,
    volumes: Option<seq<string>>,
    environment: Option<map<string, string>>,
    command: Option<string>,
    dependsOn: Option<seq<string>>,
    networks: seq<string>)

  type Services = map<string, Service>

  datatype IpamSubnet = IpamSubnet(subnet: Option<string>, gateway: Option<string>)
  datatype NetworkConfig = NetworkConfig(driver: Option<string>, external: Option<bool>, ipam: seq<IpamSubnet>)
  datatype VolumeConfig = VolumeConfig(driver: Option<string>, external: Option<bool>)

  datatype ComposeFile = ComposeFile(
    version: string, services: Services, networks: map<string, NetworkConfig>, volumes: map<string, VolumeConfig>)

  type Order = seq<(string, Service)>

  datatype OrderError = Circular(name: string) | UndefinedDependency(name: string, dep: string)

  // ---------- The dependency graph ----------

  /** The file declares `d` among the dependencies of `n`. */
  ghost predicate Needs(c: Services, n: string, d: string) {
    n in c && c[n].dependsOn.Some? && d in c[n].dependsOn.value
  }

  function Deps(c: Services, n: string): (deps: seq<string>)
    ensures forall d :: d in deps <==> Needs(c, n, d)
  {
    if n in c && c[n].dependsOn.Some? then c[n].dependsOn.value else []
  }

  /** Every element but the first is a declared dependency of the one before it. */
  ghost predicate Chain(c: Services, p: seq<string>) {
    forall i, j :: 0 <= i && j == i + 1 && j < |p| ==> Needs(c, p[i], p[j])
  }

  ghost predicate ChainFromTo(c: Services, p: seq<string>, a: string, b: string) {
    |p| >= 2 && Chain(c, p) && p[0] == a && p[|p| - 1] == b
  }

  /** `a` depends on `b`, directly or transitively. */
  ghost predicate DependsOn(c: Services, a: string, b: string) {
    exists p :: ChainFromTo(c, p, a, b)
  }

  ghost predicate Dangling(c: Services, n: string, d: string) {
    Needs(c, n, d) && d !in c
  }

  /** No dependency is undefined and no service depends on itself, even transitively. */
  ghost predicate Resolvable(c: Services) {
    (forall n, d :: !Dangling(c, n, d)) && (forall n :: !DependsOn(c, n, n))
  }

  /** The error names a real defect of the file: a real cycle, or a really missing service. */
  ghost predicate Genuine(c: Services, e: OrderError) {
    match e
    case Circular(n) => DependsOn(c, n, n)
    case UndefinedDependency(n, d) => Dangling(c, n, d)
  }

  // ---------- What a start order is ----------

  ghost function Names(order: Order): set<string> {
    set i | 0 <= i < |order| :: order[i].0
  }

  /** Each service occurs once, with its own definition, after everything it depends on. */
  ghost predicate Ordered(c: Services, order: Order) {
    && (forall i, j :: 0 <= i < j < |order| ==> order[i].0 != order[j].0)
    && (forall i :: 0 <= i < |order| ==> order[i].0 in c && order[i].1 == c[order[i].0])
    && (forall i, d :: 0 <= i < |order| && Needs(c, order[i].0, d) ==> d in Names(order[..i]))
  }

  ghost predicate IsStartOrder(c: Services, order: Order) {
    Ordered(c, order) && Names(order) == c.Keys
  }

  lemma NamesAppend(order: Order, e: (string, Service))
    ensures Names(order + [e]) == Names(order) + {e.0}
  {
    var more := order + [e];
    assert forall i :: 0 <= i < |order| ==> more[i] == order[i];
    assert more[|order|] == e;
    forall n | n in Names(order) + {e.0} ensures n in Names(more) {
      if n in Names(order) {
        var i :| 0 <= i < |order| && order[i].0 == n;
        assert more[i].0 == n;
      }
    }
  }

  lemma OrderedAppend(c: Services, order: Order, name: string)
    requires Ordered(c, order) && name in c && name !in Names(order)
    requires forall d :: Needs(c, name, d) ==> d in Names(order)
    ensures Ordered(c, order + [(name, c[name])])
  {
    var more := order + [(name, c[name])];
    forall i | 0 <= i < |order| ensures more[..i] == order[..i] && more[i] == order[i] {}
    assert more[..|order|] == order;
    forall i | 0 <= i < |order| ensures more[i].0 != name { assert order[i].0 in Names(order); }
  }

  /** Following dependencies from a position of the order only ever leads to earlier positions. */
  lemma {:induction false} ChainGoesBack(c: Services, order: Order, p: seq<string>, i: nat) returns (j: nat)
    requires Ordered(c, order) && i < |order|
    requires |p| >= 2 && Chain(c, p) && p[0] == order[i].0
    ensures j < i && order[j].0 == p[|p| - 1]
    decreases |p|
  {
    assert Needs(c, p[0], p[1]);
    assert p[1] in Names(order[..i]);
    var k :| 0 <= k < i && order[..i][k].0 == p[1];
    if |p| == 2 {
      j := k;
    } else {
      var q := p[1..];
      assert Chain(c, q) by {
        forall a, b | 0 <= a && b == a + 1 && b < |q| ensures Needs(c, q[a], q[b]) {
          assert Needs(c, p[a + 1], p[b + 1]);
        }
      }
      j := ChainGoesBack(c, order, q, k);
    }
  }

  lemma StartOrderImpliesResolvable(c: Services, order: Order)
    requires IsStartOrder(c, order)
    ensures Resolvable(c)
  {
    forall n, d | Needs(c, n, d) ensures d in c {
      assert n in Names(order);
      var i :| 0 <= i < |order| && order[i].0 == n;
      assert d in Names(order[..i]);
      var k :| 0 <= k < i && order[..i][k].0 == d;
      assert order[k].0 in c;
    }
    forall n ensures !DependsOn(c, n, n) {
      if DependsOn(c, n, n) {
        var p :| ChainFromTo(c, p, n, n);
        assert Needs(c, p[0], p[1]);
        assert n in Names(order);
        var i :| 0 <= i < |order| && order[i].0 == n;
        var j := ChainGoesBack(c, order, p, i);
        assert false;
      }
    }
  }

  /** A name met again while it is on the visiting stack closes a cycle. */
  lemma StackClosesCycle(c: Services, path: seq<string>, name: string)
    requires Chain(c, path + [name]) && name in path
    ensures DependsOn(c, name, name)
  {
    var i :| 0 <= i < |path| && path[i] == name;
    var whole := path + [name];
    var p := whole[i..];
    forall a, b | 0 <= a && b == a + 1 && b < |p| ensures Needs(c, p[a], p[b]) {
      assert Needs(c, whole[i + a], whole[i + b]);
    }
    assert ChainFromTo(c, p, name, name);
  }

  lemma ChainExtend(c: Services, path: seq<string>, name: string, dep: string)
    requires Chain(c, path + [name]) && Needs(c, name, dep)
    ensures Chain(c, path + [name] + [dep])
  {
    var q := path + [name];
    var r := q + [dep];
    forall i, j | 0 <= i && j == i + 1 && j < |r| ensures Needs(c, r[i], r[j]) {
      if j < |q| { assert Needs(c, q[i], q[j]); }
    }
  }

  // ---------- The algorithm ----------

  /** What `visit` relies on and keeps: the order built so far is right, `visited` is what it holds,
      and `visiting` is the current depth-first path. */
  ghost predicate WalkState(c: Services, visited: set<string>, visiting: set<string>, order: Order, path: seq<string>) {
    && Ordered(c, order)
    && visited == Names(order)
    && visiting == (set n | n in path)
    && visiting <= c.Keys
    && visited !! visiting
  }

  method Visit(c: Services, name: string, visited: set<string>, visiting: set<string>, order: Order,
      ghost path: seq<string>)
    returns (r: Result<(), OrderError>, visited': set<string>, visiting': set<string>, order': Order)
    requires WalkState(c, visited, visiting, order, path)
    requires Chain(c, path + [name])
    ensures name !in c ==> r.Ok? && visited' == visited && visiting' == visiting + {name} && order' == order
    ensures name in c && r.Ok? ==>
      WalkState(c, visited', visiting', order', path) && order <= order' && name in visited'
    ensures r.Err? ==> Genuine(c, r.error)
    decreases c.Keys - visiting
  {
    visited', visiting', order' := visited, visiting, order;
    if name in visited' {
      return Ok(()), visited', visiting', order';
    }
    if name in visiting' {
      StackClosesCycle(c, path, name);
      return Err(Circular(name)), visited', visiting', order';
    }
    visiting' := visiting' + {name};
    if name in c {
      ghost var here := path + [name];
      var deps := Deps(c, name);
      var k := 0;
      while k < |deps|
        invariant 0 <= k <= |deps|
        invariant WalkState(c, visited', visiting', order', here)
        invariant visiting' == visiting + {name}
        invariant order <= order'
        invariant forall i :: 0 <= i < k ==> deps[i] in visited'
      {
        var dep := deps[k];
        if dep !in c {
          assert Dangling(c, name, dep);
          return Err(UndefinedDependency(name, dep)), visited', visiting', order';
        }
        ChainExtend(c, path, name, dep);
        ghost var before := order';
        r, visited', visiting', order' := Visit(c, dep, visited', visiting', order', here);
        if r.Err? {
          return;
        }
        forall i | 0 <= i < k ensures deps[i] in visited' { PrefixNames(before, order'); }
        k := k + 1;
      }
      visiting' := visiting' - {name};
      visited' := visited' + {name};
      OrderedAppend(c, order', name);
      NamesAppend(order', (name, c[name]));
      order' := order' + [(name, c[name])];
    }
    return Ok(()), visited', visiting', order';
  }

  lemma PrefixNames(a: Order, b: Order)
    requires a <= b
    ensures Names(a) <= Names(b)
  {
    forall n | n in Names(a) ensures n in Names(b) {
      var i :| 0 <= i < |a| && a[i].0 == n;
      assert b[i].0 == n;
    }
  }

  lemma GenuineRefutes(c: Services, e: OrderError)
    requires Genuine(c, e)
    ensures !Resolvable(c)
  {
    match e
    case Circular(n) => assert DependsOn(c, n, n);
    case UndefinedDependency(n, d) => assert Dangling(c, n, d);
  }

  /** Succeeds exactly on resolvable files, with a start order; otherwise names a real defect. */
  method StartOrder(c: Services) returns (r: Result<Order, OrderError>)
    ensures r.Ok? <==> Resolvable(c)
    ensures r.Ok? ==> IsStartOrder(c, r.value)
    ensures r.Err? ==> Genuine(c, r.error)
  {
    var keys := SortKeys(c.Keys);
    r := VisitAll(c, keys);
    if r.Ok? {
      StartOrderImpliesResolvable(c, r.value);
    } else {
      GenuineRefutes(c, r.error);
    }
  }

  method VisitAll(c: Services, keys: seq<string>) returns (r: Result<Order, OrderError>)
    requires forall n :: n in keys <==> n in c.Keys
    ensures r.Ok? ==> IsStartOrder(c, r.value)
    ensures r.Err? ==> Genuine(c, r.error)
  {
    var order: Order, visited: set<string>, visiting: set<string> := [], {}, {};
    var k := 0;
    while k < |keys|
      invariant 0 <= k <= |keys|
      invariant WalkState(c, visited, visiting, order, [])
      invariant forall i :: 0 <= i < k ==> keys[i] in visited
    {
      assert keys[k] in c.Keys;
      assert Chain(c, [] + [keys[k]]);
      ghost var before := order;
      var res;
      res, visited, visiting, order := Visit(c, keys[k], visited, visiting, order, []);
      if res.Err? {
        return Err(res.error);
      }
      PrefixNames(before, order);
      k := k + 1;
    }
    return Ok(order);
  }

  // ---------- vyoma down ----------

  ghost predicate StopsEachOnce(running: map<string, string>, stops: seq<(string, string)>) {
    && (forall i, j :: 0 <= i < j < |stops| ==> stops[i].0 != stops[j].0)
    && (forall i :: 0 <= i < |stops| ==> stops[i].0 in running && stops[i].1 == running[stops[i].0])
    && (forall n :: n in running ==> exists i :: 0 <= i < |stops| && stops[i].0 == n)
  }

  /** A service is stopped before everything it depends on, directly or transitively. */
  ghost predicate DependentsFirst(c: Services, stops: seq<(string, string)>) {
    forall i, j :: 0 <= i < |stops| && 0 <= j < |stops| && DependsOn(c, stops[i].0, stops[j].0) ==> i < j
  }

  /** Running services that the file does not name are stopped after those it names. */
  ghost predicate UnlistedLast(c: Services, stops: seq<(string, string)>) {
    forall i, j :: 0 <= i < |stops| && 0 <= j < |stops| && stops[i].0 in c && stops[j].0 !in c ==> i < j
  }

  function ReversedNames(order: Order): (s: seq<string>)
    ensures |s| == |order|
    ensures forall a :: 0 <= a < |s| ==> s[a] == order[|order| - 1 - a].0
  {
    seq(|order|, i requires 0 <= i < |order| => order[|order| - 1 - i].0)
  }

  lemma ReversedNamesDistinct(c: Services, order: Order)
    requires Ordered(c, order)
    ensures Distinct(ReversedNames(order))
  {
  }

  /** In the reversed start order a service precedes everything it depends on. */
  lemma ReversedOrderPutsDependentsFirst(c: Services, order: Order, a: nat, b: nat)
    requires IsStartOrder(c, order) && a < |order| && b < |order|
    requires DependsOn(c, order[|order| - 1 - a].0, order[|order| - 1 - b].0)
    ensures a < b
  {
    var i := |order| - 1 - a;
    var p :| ChainFromTo(c, p, order[i].0, order[|order| - 1 - b].0);
    var j := ChainGoesBack(c, order, p, i);
  }

  /** A VM as the daemon lists it. */
  datatype Vm = Vm(id: string, labels: map<string, string>)

  predicate InStack(vm: Vm, stack: string) {
    "vyoma.stack" in vm.labels && vm.labels["vyoma.stack"] == stack
  }

  function ServiceName(vm: Vm): string {
    if "vyoma.service" in vm.labels then vm.labels["vyoma.service"] else vm.id
  }

  /** The stack's VMs by service name; of several with one name the last listed stands. */
  function Running(vms: seq<Vm>, stack: string): map<string, string> {
    if vms == [] then map[]
    else
      var before, vm := Running(vms[..|vms| - 1], stack), vms[|vms| - 1];
      if InStack(vm, stack) then before[ServiceName(vm) := vm.id] else before
  }

  /** No VM of the stack listed later has this one's service name. */
  ghost predicate LastOfService(vms: seq<Vm>, stack: string, i: nat)
    requires i < |vms|
  {
    forall j :: i < j < |vms| && InStack(vms[j], stack) ==> ServiceName(vms[j]) != ServiceName(vms[i])
  }

  lemma {:induction false} LastStands(vms: seq<Vm>, stack: string, i: nat)
    requires i < |vms| && InStack(vms[i], stack) && LastOfService(vms, stack, i)
    ensures ServiceName(vms[i]) in Running(vms, stack) && Running(vms, stack)[ServiceName(vms[i])] == vms[i].id
    decreases |vms|
  {
    if i < |vms| - 1 { LastStands(vms[..|vms| - 1], stack, i); }
  }

  lemma {:induction false} StandingIsLast(vms: seq<Vm>, stack: string, name: string) returns (i: nat)
    requires name in Running(vms, stack)
    ensures i < |vms| && InStack(vms[i], stack) && LastOfService(vms, stack, i)
    ensures ServiceName(vms[i]) == name && vms[i].id == Running(vms, stack)[name]
    decreases |vms|
  {
    var n := |vms| - 1;
    if InStack(vms[n], stack) && ServiceName(vms[n]) == name {
      i := n;
    } else {
      i := StandingIsLast(vms[..n], stack, name);
    }
  }

  /** By its labels the VM runs the service in the stack; without a service label its id is the service's name. */
  ghost predicate Serves(vm: Vm, stack: string, name: string) {
    && "vyoma.stack" in vm.labels && vm.labels["vyoma.stack"] == stack
    && ("vyoma.service" in vm.labels ==> vm.labels["vyoma.service"] == name)
    && ("vyoma.service" !in vm.labels ==> vm.id == name)
  }

  /** The `i`-th VM runs the service and no VM listed later does. */
  ghost predicate ServesLast(vms: seq<Vm>, stack: string, name: string, i: nat) {
    i < |vms| && Serves(vms[i], stack, name) && forall j :: i < j < |vms| ==> !Serves(vms[j], stack, name)
  }

  /** The names are those the listed VMs serve in the stack, each with the id of the last VM serving it. */
  ghost predicate ByLastServer(vms: seq<Vm>, stack: string, running: map<string, string>) {
    && (forall name :: name in running ==> exists i: nat :: ServesLast(vms, stack, name, i))
    && (forall name, i: nat :: ServesLast(vms, stack, name, i) ==>
      i < |vms| && name in running && running[name] == vms[i].id)
  }

  lemma ServesIff(vm: Vm, stack: string, name: string)
    ensures Serves(vm, stack, name) <==> InStack(vm, stack) && ServiceName(vm) == name
  {
  }

  lemma RunningByLastServer(vms: seq<Vm>, stack: string)
    ensures ByLastServer(vms, stack, Running(vms, stack))
  {
    forall i, name | 0 <= i < |vms|
      ensures Serves(vms[i], stack, name) <==> InStack(vms[i], stack) && ServiceName(vms[i]) == name
    {
      ServesIff(vms[i], stack, name);
    }
    forall name | name in Running(vms, stack) ensures exists i: nat :: ServesLast(vms, stack, name, i) {
      var i := StandingIsLast(vms, stack, name);
      assert ServesLast(vms, stack, name, i);
    }
    forall name, i: nat | ServesLast(vms, stack, name, i)
      ensures i < |vms| && name in Running(vms, stack) && Running(vms, stack)[name] == vms[i].id
    {
      LastStands(vms, stack, i);
    }
  }

  method GatherRunning(vms: seq<Vm>, stack: string) returns (running: map<string, string>)
    ensures running == Running(vms, stack)
    ensures ByLastServer(vms, stack, running)
  {
    RunningByLastServer(vms, stack);
    running := map[];
    for k := 0 to |vms|
      invariant running == Running(vms[..k], stack)
    {
      assert vms[..k + 1][..k] == vms[..k];
      if InStack(vms[k], stack) {
        var name := if "vyoma.service" in vms[k].labels then vms[k].labels["vyoma.service"] else vms[k].id;
        running := running[name := vms[k].id];
      }
    }
    assert vms[..|vms|] == vms;
  }

  ghost predicate DistinctVms(vms: seq<Vm>) {
    forall i, j :: 0 <= i < j < |vms| ==> vms[i].id != vms[j].id
  }

  ghost predicate Stopped(stops: seq<(string, string)>, id: string) {
    exists k :: 0 <= k < |stops| && stops[k].1 == id
  }

  lemma StoppedIffLast(vms: seq<Vm>, stack: string, stops: seq<(string, string)>, i: nat)
    requires DistinctVms(vms) && StopsEachOnce(Running(vms, stack), stops) && i < |vms| && InStack(vms[i], stack)
    ensures Stopped(stops, vms[i].id) <==> LastOfService(vms, stack, i)
  {
    if LastOfService(vms, stack, i) {
      LastStands(vms, stack, i);
      var k :| 0 <= k < |stops| && stops[k].0 == ServiceName(vms[i]);
    }
    if k :| 0 <= k < |stops| && stops[k].1 == vms[i].id {
      var j := StandingIsLast(vms, stack, stops[k].0);
      assert j == i;
    }
  }

  /** Every stop request is for the last server of its name in the stack, and every last server gets one. */
  ghost predicate StopsServers(vms: seq<Vm>, stack: string, stops: seq<(string, string)>) {
    && (forall k :: 0 <= k < |stops| ==> ForServer(vms, stack, stops[k]))
    && (forall name, i: nat :: ServesLast(vms, stack, name, i) ==> i < |vms| && (name, vms[i].id) in stops)
  }

  ghost predicate ForServer(vms: seq<Vm>, stack: string, stop: (string, string)) {
    exists i: nat :: ServesLast(vms, stack, stop.0, i) && vms[i].id == stop.1
  }

  lemma StopsLastServers(vms: seq<Vm>, stack: string, running: map<string, string>, stops: seq<(string, string)>)
    requires ByLastServer(vms, stack, running) && StopsEachOnce(running, stops)
    ensures StopsServers(vms, stack, stops)
  {
    forall k | 0 <= k < |stops| ensures ForServer(vms, stack, stops[k]) {
      var name := stops[k].0;
      assert name in running && running[name] == stops[k].1;
      var i: nat :| ServesLast(vms, stack, name, i);
      assert running[name] == vms[i].id;
    }
    forall name, i: nat | ServesLast(vms, stack, name, i) ensures i < |vms| && (name, vms[i].id) in stops {
      assert name in running && running[name] == vms[i].id;
      var k :| 0 <= k < |stops| && stops[k].0 == name;
      assert stops[k] == (name, vms[i].id);
    }
  }

  /** A VM is stopped exactly when it is the last server of some name, so one whose stack label is missing or names
      another stack never is. */
  ghost predicate StopsOnlyServers(vms: seq<Vm>, stack: string, stops: seq<(string, string)>) {
    && (forall i: nat :: i < |vms| ==>
      (Stopped(stops, vms[i].id) <==> exists name :: ServesLast(vms, stack, name, i)))
    && (forall i: nat :: i < |vms| && "vyoma.stack" !in vms[i].labels ==> !Stopped(stops, vms[i].id))
    && (forall i: nat :: i < |vms| && "vyoma.stack" in vms[i].labels && vms[i].labels["vyoma.stack"] != stack ==>
      !Stopped(stops, vms[i].id))
  }

  lemma StoppedIffServesLast(vms: seq<Vm>, stack: string, stops: seq<(string, string)>, i: nat)
    requires DistinctVms(vms) && i < |vms| && StopsServers(vms, stack, stops)
    ensures Stopped(stops, vms[i].id) <==> exists name :: ServesLast(vms, stack, name, i)
  {
    if k :| 0 <= k < |stops| && stops[k].1 == vms[i].id {
      var j: nat :| ServesLast(vms, stack, stops[k].0, j) && vms[j].id == stops[k].1;
      assert j == i;
    }
    if name :| ServesLast(vms, stack, name, i) {
      var k :| 0 <= k < |stops| && stops[k] == (name, vms[i].id);
    }
  }

  lemma StopsOnlyLastServers(vms: seq<Vm>, stack: string, stops: seq<(string, string)>)
    requires DistinctVms(vms) && StopsServers(vms, stack, stops)
    ensures StopsOnlyServers(vms, stack, stops)
  {
    forall i: nat | i < |vms| ensures Stopped(stops, vms[i].id) <==> exists name :: ServesLast(vms, stack, name, i) {
      StoppedIffServesLast(vms, stack, stops, i);
    }
  }

  /** `vyoma down`: the stop requests, with service names and VM ids, for the VMs the daemon lists. Of several VMs of
      the stack under one service name, as scaling starts them, only the last listed is stopped. */
  method Down(vms: seq<Vm>, stack: string, file: Option<Services>) returns (stops: seq<(string, string)>)
    ensures StopsEachOnce(Running(vms, stack), stops)
    ensures StopsServers(vms, stack, stops)
    ensures file.Some? && Resolvable(file.value) ==>
      DependentsFirst(file.value, stops) && UnlistedLast(file.value, stops)
    ensures DistinctVms(vms) ==> StopsOnlyServers(vms, stack, stops)
    ensures DistinctVms(vms) ==> forall i :: 0 <= i < |vms| && InStack(vms[i], stack) ==>
      (Stopped(stops, vms[i].id) <==> LastOfService(vms, stack, i))
  {
    var running := GatherRunning(vms, stack);
    if running == map[] {
      stops := [];
    } else {
      stops := StopRunning(running, file);
    }
    StopsLastServers(vms, stack, running, stops);
    if DistinctVms(vms) {
      StopsOnlyLastServers(vms, stack, stops);
      forall i | 0 <= i < |vms| && InStack(vms[i], stack)
        ensures Stopped(stops, vms[i].id) <==> LastOfService(vms, stack, i)
      {
        StoppedIffLast(vms, stack, stops, i);
      }
    }
  }

  /** The services of a stack are stopped, in the order of the stop requests. `file` is the compose file when it could
      be found and parsed; the running map is iterated in an arbitrary order. */
  method StopRunning(running: map<string, string>, file: Option<Services>) returns (stops: seq<(string, string)>)
    ensures StopsEachOnce(running, stops)
    ensures file.Some? && Resolvable(file.value) ==>
      DependentsFirst(file.value, stops) && UnlistedLast(file.value, stops)
  {
    ghost var order: Order := [];
    var stopOrder: seq<string> := [];
    if file.Some? {
      var res := StartOrder(file.value);
      if res.Ok? {
        order := res.value;
        stopOrder := ReversedNames(res.value);
        ReversedNamesDistinct(file.value, order);
      }
    }
    stopOrder := AddRemaining(running, stopOrder);
    ghost var at;
    stops, at := StopListed(running, stopOrder);
    if file.Some? && Resolvable(file.value) {
      DownRespectsOrder(file.value, order, stopOrder, stops, at);
    }
  }

  ghost predicate Distinct(s: seq<string>) {
    forall a, b :: 0 <= a < b < |s| ==> s[a] != s[b]
  }

  /** The running services missing from the list, appended in an arbitrary order. */
  method AddRemaining(running: map<string, string>, listed: seq<string>) returns (all: seq<string>)
    requires Distinct(listed)
    ensures listed <= all && Distinct(all)
    ensures forall n :: n in running ==> n in all
  {
    all := listed;
    var rest := running.Keys;
    while rest != {}
      invariant listed <= all && Distinct(all)
      invariant rest <= running.Keys
      invariant forall n :: n in running && n !in rest ==> n in all
      decreases |rest|
    {
      var name :| name in rest;
      if name !in all {
        all := all + [name];
      }
      rest := rest - {name};
    }
  }

  /** The stop requests issued on the first `k` names of the list: `at` is the list position of each. */
  ghost predicate StopsAt(running: map<string, string>, stopOrder: seq<string>, k: nat, stops: seq<(string, string)>,
                          at: seq<nat>)
  {
    && |at| == |stops|
    && (forall i :: 0 <= i < |at| ==> at[i] < k && at[i] < |stopOrder| && stops[i].0 == stopOrder[at[i]])
    && (forall i, j :: 0 <= i < j < |at| ==> at[i] < at[j])
    && (forall i :: 0 <= i < |stops| ==> stops[i].0 in running && stops[i].1 == running[stops[i].0])
    && (forall a :: 0 <= a < k && a < |stopOrder| && stopOrder[a] in running ==> a in at)
  }

  method StopListed(running: map<string, string>, stopOrder: seq<string>)
    returns (stops: seq<(string, string)>, ghost at: seq<nat>)
    requires Distinct(stopOrder)
    requires forall n :: n in running ==> n in stopOrder
    ensures StopsEachOnce(running, stops)
    ensures StopsAt(running, stopOrder, |stopOrder|, stops, at)
  {
    stops, at := [], [];
    var k := 0;
    while k < |stopOrder|
      invariant 0 <= k <= |stopOrder|
      invariant StopsAt(running, stopOrder, k, stops, at)
    {
      StopOne(running, stopOrder, k, stops, at);
      if stopOrder[k] in running {
        stops := stops + [(stopOrder[k], running[stopOrder[k]])];
        at := at + [k];
      }
      k := k + 1;
    }
    StopsOnce(running, stopOrder, stops, at);
  }

  lemma StopOne(running: map<string, string>, stopOrder: seq<string>, k: nat, stops: seq<(string, string)>,
      at: seq<nat>)
    requires k < |stopOrder| && StopsAt(running, stopOrder, k, stops, at)
    ensures var n := stopOrder[k];
      if n in running then StopsAt(running, stopOrder, k + 1, stops + [(n, running[n])], at + [k])
      else StopsAt(running, stopOrder, k + 1, stops, at)
  {
    if stopOrder[k] in running {
      forall a | 0 <= a < k + 1 && stopOrder[a] in running ensures a in at + [k] {
        if a < k { assert a in at; } else { assert (at + [k])[|at|] == a; }
      }
    }
  }

  lemma StopsOnce(running: map<string, string>, stopOrder: seq<string>, stops: seq<(string, string)>, at: seq<nat>)
    requires Distinct(stopOrder) && StopsAt(running, stopOrder, |stopOrder|, stops, at)
    requires forall n :: n in running ==> n in stopOrder
    ensures StopsEachOnce(running, stops)
  {
    forall n | n in running ensures exists i :: 0 <= i < |stops| && stops[i].0 == n {
      var a :| 0 <= a < |stopOrder| && stopOrder[a] == n;
      assert a in at;
      var i :| 0 <= i < |at| && at[i] == a;
      assert stops[i].0 == n;
    }
    forall i, j | 0 <= i < j < |stops| ensures stops[i].0 != stops[j].0 {
      assert at[i] < at[j];
    }
  }

  lemma DownRespectsOrder(c: Services, order: Order, stopOrder: seq<string>, stops: seq<(string, string)>, at: seq<nat>)
    requires Resolvable(c) && IsStartOrder(c, order)
    requires |order| <= |stopOrder|
    requires forall a :: 0 <= a < |order| ==> stopOrder[a] == order[|order| - 1 - a].0
    requires forall a, b :: 0 <= a < b < |stopOrder| ==> stopOrder[a] != stopOrder[b]
    requires |at| == |stops|
    requires forall i :: 0 <= i < |at| ==> at[i] < |stopOrder| && stops[i].0 == stopOrder[at[i]]
    requires forall i, j :: 0 <= i < j < |at| ==> at[i] < at[j]
    ensures DependentsFirst(c, stops) && UnlistedLast(c, stops)
  {
    forall i | 0 <= i < |stops|
      ensures at[i] < |order| <==> stops[i].0 in c
    {
      if at[i] < |order| {
        assert order[|order| - 1 - at[i]].0 in c;
      }
      if stops[i].0 in c {
        assert stops[i].0 in Names(order);
        var k :| 0 <= k < |order| && order[k].0 == stops[i].0;
        assert stopOrder[|order| - 1 - k] == stops[i].0;
      }
    }
    forall i, j | 0 <= i < |stops| && 0 <= j < |stops| && DependsOn(c, stops[i].0, stops[j].0)
      ensures i < j
    {
      DependsOnDefined(c, stops[i].0, stops[j].0);
      ReversedOrderPutsDependentsFirst(c, order, at[i], at[j]);
    }
  }

  lemma DependsOnDefined(c: Services, a: string, b: string)
    requires Resolvable(c) && DependsOn(c, a, b)
    ensures a in c && b in c
  {
    var p :| ChainFromTo(c, p, a, b);
    assert Needs(c, p[0], p[1]);
    var k := |p| - 2;
    assert Needs(c, p[k], p[k + 1]);
    assert !Dangling(c, p[k], p[k + 1]);
  }
}
