/** The version 3 schema: `to_v3` (crates/vyoma-compose/src/lib.rs), and `validate`, `translate` and the resource
    translator (crates/vyoma-compose/src/schema_v3.rs). Hash maps are iterated in an arbitrary order. */
module ComposeV3 {
  import opened Outcomes
  import opened Text
  import Compose

  type Port = p: nat | p < U16

  datatype PortEntry =
    | ShortPort(text: string)
    | LongPort(target: Port, published: Option<Port>, protocol: Option<string>, mode: Option<string>)

  datatype VolumeEntry =
    | ShortVolume(text: string)
    | LongVolume(kind: string, source: Option<string>, target: string, readOnly: Option<bool>)

  datatype ResourceConstraints = ResourceConstraints(cpus: Option<string>, memory: Option<string>)
  datatype ResourceConfig = ResourceConfig(
    limits: Option<ResourceConstraints>, reservations: Option<ResourceConstraints>)
  datatype DeployConfig = DeployConfig(resources: Option<ResourceConfig>)

  datatype CommandEntry = CommandString(text: string) | CommandList(words: seq<string>)

  datatype ServiceV3 = ServiceV3(
    image: Option<string>, ports: seq<PortEntry>, volumes: seq<VolumeEntry>, environment: map<string, string>,
    dependsOn: map<string, string>, deploy: Option<DeployConfig>, networks: seq<string>, command: Option<CommandEntry>)

  type Services = map<string, ServiceV3>

  datatype NetworkV3 = NetworkV3(driver: Option<string>, external: Option<bool>)
  datatype VolumeV3 = VolumeV3(driver: Option<string>, external: Option<bool>)

  datatype ComposeFile = ComposeFile(
    version: Option<string>, services: Services, networks: map<string, NetworkV3>, volumes: map<string, VolumeV3>)

  // ---------- Texts between colons ----------

  lemma SplitTwo(text: string, a: string, b: string)
    ensures Split(text, ':') == [a, b] <==> ':' !in a && ':' !in b && text == a + ":" + b
  {
    SplitIff(text, ':', [a, b]);
    JoinStep(a, ':', [b]);
    JoinStep(b, ':', [a]);
    assert [a] + [b] == [a, b];
  }

  lemma SplitThree(text: string, a: string, b: string, c: string)
    ensures Split(text, ':') == [a, b, c] <==>
      ':' !in a && ':' !in b && ':' !in c && text == a + ":" + (b + ":" + c)
  {
    SplitIff(text, ':', [a, b, c]);
    JoinStep(a, ':', [b, c]);
    JoinStep(b, ':', [c]);
    JoinStep(c, ':', [a]);
    assert [a] + [b, c] == [a, b, c] && [b] + [c] == [b, c];
  }

  /** The text is the two parts with a colon between them, and perhaps another one and more behind them. */
  ghost predicate StartsWithPair(text: string, a: string, b: string) {
    && ':' !in a && ':' !in b
    && (text == a + ":" + b || exists rest :: text == a + ":" + (b + ":" + rest))
  }

  lemma SplitPairFirst(text: string, a: string, b: string)
    ensures |Split(text, ':')| >= 2 && Split(text, ':')[0] == a && Split(text, ':')[1] == b
       <==> StartsWithPair(text, a, b)
  {
    var parts := Split(text, ':');
    JoinSplit(text, ':');
    if |parts| >= 2 && parts[0] == a && parts[1] == b {
      assert parts == [a] + parts[1..] && parts[1..] == [b] + parts[2..];
      JoinStep(a, ':', parts[1..]);
      if |parts| > 2 { JoinStep(b, ':', parts[2..]); } else { JoinStep(b, ':', [a]); }
    }
    if StartsWithPair(text, a, b) {
      if text == a + ":" + b {
        SplitTwo(text, a, b);
      } else {
        var rest :| text == a + ":" + (b + ":" + rest);
        SplitStep(a, ':', b + ":" + rest);
        SplitStep(b, ':', rest);
      }
    }
  }

  /** The text is the two parts with a colon between them, or has one more part and a colon in front. */
  ghost predicate EndsWithPair(text: string, a: string, b: string) {
    && ':' !in a && ':' !in b
    && (text == a + ":" + b || exists front :: ':' !in front && text == front + ":" + (a + ":" + b))
  }

  lemma SplitPairLast(text: string, a: string, b: string)
    ensures EndsWithPair(text, a, b) <==>
      var parts := Split(text, ':'); parts == [a, b] || (|parts| == 3 && parts == [parts[0], a, b])
  {
    var parts := Split(text, ':');
    SplitTwo(text, a, b);
    if |parts| == 3 { SplitThree(text, parts[0], a, b); }
    if EndsWithPair(text, a, b) && text != a + ":" + b {
      var front :| ':' !in front && text == front + ":" + (a + ":" + b);
      SplitThree(text, front, a, b);
    }
  }

  lemma DigitsNoColon(n: nat)
    ensures ':' !in Digits(n)
  {
    var d := Digits(n);
    assert forall i :: 0 <= i < |d| ==> IsDigit(d[i]);
  }

  // ---------- Validation ----------

  datatype ValidationError =
    | UndefinedDependency(service: string, dependency: string)
    | UndefinedNetwork(service: string, network: string)
    | PortConflict(port: nat)

  /** The host port an entry publishes, as validation reads it: sixteen bits wide. */
  function Published(p: PortEntry): Option<nat> {
    match p
    case LongPort(_, published, _, _) => (match published case Some(h) => Some(h) case None => None)
    case ShortPort(text) =>
      var parts := Split(text, ':');
      if |parts| == 2 then ParseUnsigned(parts[0], U16)
      else if |parts| == 3 then ParseUnsigned(parts[1], U16)
      else None
  }

  /** Written out: a long entry's published port, or the number before the last colon, whatever the address before it
      and whatever the VM's port behind it. */
  ghost predicate PublishesHost(p: PortEntry, host: nat) {
    match p
    case LongPort(_, published, _, _) => published.Some? && published.value == host
    case ShortPort(text) => host < 0x1_0000 && exists h, v :: EndsWithPair(text, h, v) && Numeral(h, host)
  }

  lemma ShortPublished(text: string, host: nat)
    requires Published(ShortPort(text)) == Some(host)
    ensures PublishesHost(ShortPort(text), host)
  {
    var h, v := LastTwo(text);
    ParseUnsignedIff(h, U16, host);
  }

  lemma ShortPublishes(text: string, host: nat, h: string, v: string)
    requires host < U16 && EndsWithPair(text, h, v) && Numeral(h, host)
    ensures Published(ShortPort(text)) == Some(host)
  {
    EndsWithIsRead(text, h, v);
    ParseUnsignedIff(h, U16, host);
  }

  lemma PublishedIff(p: PortEntry, host: nat)
    ensures Published(p) == Some(host) <==> PublishesHost(p, host)
  {
    if p.ShortPort? {
      if Published(p) == Some(host) { ShortPublished(p.text, host); }
      if PublishesHost(p, host) {
        var h, v :| EndsWithPair(p.text, h, v) && Numeral(h, host);
        ShortPublishes(p.text, host, h, v);
      }
    }
  }

  ghost predicate Publishes(s: Services, name: string, i: int, port: nat) {
    name in s && 0 <= i < |s[name].ports| && Published(s[name].ports[i]) == Some(port)
  }

  /** No host port is published by two different entries of the stack. */
  ghost predicate PortsUnique(s: Services, names: set<string>) {
    forall n, i, m, j, port ::
      n in names && m in names && Publishes(s, n, i, port) && Publishes(s, m, j, port) ==> n == m && i == j
  }

  ghost predicate ReferencesDefined(f: ComposeFile, name: string) {
    name in f.services ==>
      && (forall d :: d in f.services[name].dependsOn ==> d in f.services)
      && (forall net :: net in f.services[name].networks ==> net == "default" || net in f.networks)
  }

  ghost predicate Consistent(f: ComposeFile) {
    (forall name :: ReferencesDefined(f, name)) && PortsUnique(f.services, f.services.Keys)
  }

  /** The error points at a real defect. */
  ghost predicate Genuine(f: ComposeFile, e: ValidationError) {
    match e
    case UndefinedDependency(n, d) => n in f.services && d in f.services[n].dependsOn && d !in f.services
    case UndefinedNetwork(n, net) =>
      n in f.services && net in f.services[n].networks && net != "default" && net !in f.networks
    case PortConflict(port) =>
      exists n, i, m, j :: (n, i) != (m, j) && Publishes(f.services, n, i, port) && Publishes(f.services, m, j, port)
  }

  ghost predicate AllGenuine(f: ComposeFile, errors: seq<ValidationError>) {
    forall i :: 0 <= i < |errors| ==> Genuine(f, errors[i])
  }

  ghost predicate PublishedBy(s: Services, done: set<string>, p: nat) {
    exists n, i :: n in done && Publishes(s, n, i, p)
  }

  ghost predicate PublishedBefore(s: Services, name: string, k: nat, p: nat) {
    exists i :: i < k && Publishes(s, name, i, p)
  }

  /** Exactly the ports of the services already visited. */
  ghost predicate Gathered(s: Services, done: set<string>, published: set<nat>) {
    forall p: nat :: p in published <==> PublishedBy(s, done, p)
  }

  /** Exactly those, and the ports of the first `k` entries of the current service. */
  ghost predicate GatheredUpTo(s: Services, done: set<string>, name: string, k: nat, published: set<nat>) {
    forall p: nat :: p in published <==> PublishedBy(s, done, p) || PublishedBefore(s, name, k, p)
  }

  /** No conflict within the current service's first `k` entries, nor between them and the visited services. */
  ghost predicate UniqueSoFar(s: Services, done: set<string>, name: string, k: nat) {
    && (forall i, j, p :: i < k && j < k && Publishes(s, name, i, p) && Publishes(s, name, j, p) ==> i == j)
    && (forall j, p :: j < k && Publishes(s, name, j, p) ==> !PublishedBy(s, done, p))
  }

  method CheckPorts(f: ComposeFile, ghost done: set<string>, name: string, before: set<nat>)
    returns (published: set<nat>, errors: seq<ValidationError>)
    requires name in f.services && name !in done && Gathered(f.services, done, before)
    ensures Gathered(f.services, done + {name}, published)
    ensures AllGenuine(f, errors)
    ensures errors == [] && PortsUnique(f.services, done) ==> PortsUnique(f.services, done + {name})
  {
    published, errors := before, [];
    var k := 0;
    while k < |f.services[name].ports|
      invariant 0 <= k <= |f.services[name].ports|
      invariant GatheredUpTo(f.services, done, name, k, published)
      invariant AllGenuine(f, errors)
      invariant errors == [] ==> UniqueSoFar(f.services, done, name, k)
    {
      var more;
      published, more := CheckPort(f, done, name, k, published);
      errors := errors + more;
      k := k + 1;
    }
    ServiceGathered(f.services, done, name, published);
    if errors == [] && PortsUnique(f.services, done) { ServiceUnique(f.services, done, name); }
  }

  method CheckPort(f: ComposeFile, ghost done: set<string>, name: string, k: nat, before: set<nat>)
    returns (published: set<nat>, errors: seq<ValidationError>)
    requires name in f.services && name !in done && k < |f.services[name].ports|
    requires GatheredUpTo(f.services, done, name, k, before)
    ensures GatheredUpTo(f.services, done, name, k + 1, published)
    ensures AllGenuine(f, errors)
    ensures errors == [] && UniqueSoFar(f.services, done, name, k) ==> UniqueSoFar(f.services, done, name, k + 1)
  {
    published, errors := before, [];
    var p := Published(f.services[name].ports[k]);
    if p.Some? {
      if p.value in published {
        ConflictIsReal(f, done, name, k, published, p.value);
        errors := [PortConflict(p.value)];
      }
      published := published + {p.value};
    }
    PortGathered(f.services, done, name, k, before);
    if errors == [] && UniqueSoFar(f.services, done, name, k) {
      PortUnique(f.services, done, name, k, before);
    }
  }

  lemma ConflictIsReal(f: ComposeFile, done: set<string>, name: string, k: nat, published: set<nat>, p: nat)
    requires GatheredUpTo(f.services, done, name, k, published) && name in f.services && name !in done
    requires k < |f.services[name].ports| && Published(f.services[name].ports[k]) == Some(p) && p in published
    ensures Genuine(f, PortConflict(p))
  {
    assert Publishes(f.services, name, k, p);
    if PublishedBy(f.services, done, p) {
      var n, i :| n in done && Publishes(f.services, n, i, p);
      assert (n, i) != (name, k as int);
    } else {
      var i :| i < k && Publishes(f.services, name, i, p);
      assert (name, i) != (name, k as int);
    }
  }

  lemma OneMoreEntry(s: Services, name: string, k: nat, p: nat)
    requires name in s && k < |s[name].ports|
    ensures PublishedBefore(s, name, k + 1, p) <==>
      PublishedBefore(s, name, k, p) || Published(s[name].ports[k]) == Some(p)
  {
    if PublishedBefore(s, name, k + 1, p) && !PublishedBefore(s, name, k, p) {
      var i :| i < k + 1 && Publishes(s, name, i, p);
      assert i == k;
    }
    if PublishedBefore(s, name, k, p) {
      var i :| i < k && Publishes(s, name, i, p);
      assert i < k + 1;
    }
    if Published(s[name].ports[k]) == Some(p) { assert Publishes(s, name, k, p); }
  }

  lemma PortGathered(s: Services, done: set<string>, name: string, k: nat, before: set<nat>)
    requires name in s && k < |s[name].ports| && GatheredUpTo(s, done, name, k, before)
    ensures var p := Published(s[name].ports[k]);
      GatheredUpTo(s, done, name, k + 1, if p.Some? then before + {p.value} else before)
  {
    forall p: nat ensures PublishedBefore(s, name, k + 1, p) <==>
                          PublishedBefore(s, name, k, p) || Published(s[name].ports[k]) == Some(p)
    {
      OneMoreEntry(s, name, k, p);
    }
  }

  lemma PortUnique(s: Services, done: set<string>, name: string, k: nat, before: set<nat>)
    requires name in s && k < |s[name].ports| && GatheredUpTo(s, done, name, k, before)
    requires UniqueSoFar(s, done, name, k)
    requires Published(s[name].ports[k]).Some? ==> Published(s[name].ports[k]).value !in before
    ensures UniqueSoFar(s, done, name, k + 1)
  {
    forall j, p | j < k + 1 && Publishes(s, name, j, p) ensures !PublishedBy(s, done, p) {
      if j == k { assert p !in before; }
    }
    forall i, j, p | i < k + 1 && j < k + 1 && Publishes(s, name, i, p) && Publishes(s, name, j, p) ensures i == j {
      if i < k && j == k { NotPublishedBefore(s, name, k, p, i); }
      if j < k && i == k { NotPublishedBefore(s, name, k, p, j); }
    }
  }

  lemma NotPublishedBefore(s: Services, name: string, k: nat, p: nat, i: int)
    requires !PublishedBefore(s, name, k, p) && i < k
    ensures !Publishes(s, name, i, p)
  {
  }

  lemma ServiceGathered(s: Services, done: set<string>, name: string, published: set<nat>)
    requires name in s && GatheredUpTo(s, done, name, |s[name].ports|, published)
    ensures Gathered(s, done + {name}, published)
  {
    forall p: nat ensures p in published <==> PublishedBy(s, done + {name}, p) {
      OneMoreService(s, done, name, p);
    }
  }

  lemma OneMoreService(s: Services, done: set<string>, name: string, p: nat)
    requires name in s
    ensures PublishedBy(s, done + {name}, p) <==>
      PublishedBy(s, done, p) || PublishedBefore(s, name, |s[name].ports|, p)
  {
    if PublishedBy(s, done + {name}, p) && !PublishedBy(s, done, p) {
      var n, i :| n in done + {name} && Publishes(s, n, i, p);
      assert n == name && i < |s[name].ports|;
    }
    if PublishedBy(s, done, p) {
      var n, i :| n in done && Publishes(s, n, i, p);
      assert n in done + {name};
    }
    if PublishedBefore(s, name, |s[name].ports|, p) {
      var i :| i < |s[name].ports| && Publishes(s, name, i, p);
      assert name in done + {name};
    }
  }

  lemma ServiceUnique(s: Services, done: set<string>, name: string)
    requires name in s && PortsUnique(s, done) && UniqueSoFar(s, done, name, |s[name].ports|)
    ensures PortsUnique(s, done + {name})
  {
    forall n, i, m, j, port
      | n in done + {name} && m in done + {name} && Publishes(s, n, i, port) && Publishes(s, m, j, port)
      ensures n == m && i == j
    {
      if n == name { assert i < |s[name].ports|; }
      if m == name { assert j < |s[name].ports|; }
      if n != name { assert PublishedBy(s, done, port); }
      if m != name { assert PublishedBy(s, done, port); }
    }
  }

  method CheckDependencies(f: ComposeFile, name: string) returns (errors: seq<ValidationError>)
    requires name in f.services
    ensures AllGenuine(f, errors)
    ensures errors == [] <==> forall d :: d in f.services[name].dependsOn ==> d in f.services
  {
    errors := [];
    var rest := f.services[name].dependsOn.Keys;
    while rest != {}
      invariant rest <= f.services[name].dependsOn.Keys
      invariant AllGenuine(f, errors)
      invariant errors == [] <==> forall d :: d in f.services[name].dependsOn && d !in rest ==> d in f.services
      decreases |rest|
    {
      var d :| d in rest;
      if d !in f.services {
        errors := errors + [UndefinedDependency(name, d)];
      }
      rest := rest - {d};
    }
  }

  method CheckNetworks(f: ComposeFile, name: string) returns (errors: seq<ValidationError>)
    requires name in f.services
    ensures AllGenuine(f, errors)
    ensures errors == [] <==> forall net :: net in f.services[name].networks ==> net == "default" || net in f.networks
  {
    errors := [];
    var networks := f.services[name].networks;
    for k := 0 to |networks|
      invariant AllGenuine(f, errors)
      invariant errors == [] <==> forall i :: 0 <= i < k ==> networks[i] == "default" || networks[i] in f.networks
    {
      if networks[k] != "default" && networks[k] !in f.networks {
        errors := errors + [UndefinedNetwork(name, networks[k])];
      }
    }
  }

  lemma ErrorsRefute(f: ComposeFile, errors: seq<ValidationError>)
    requires AllGenuine(f, errors) && errors != []
    ensures !Consistent(f)
  {
    assert Genuine(f, errors[0]);
    match errors[0]
    case UndefinedDependency(n, d) => assert !ReferencesDefined(f, n);
    case UndefinedNetwork(n, net) => assert !ReferencesDefined(f, n);
    case PortConflict(port) => assert !PortsUnique(f.services, f.services.Keys);
  }

  /** Nothing wrong with the services visited so far. */
  ghost predicate CleanSoFar(f: ComposeFile, done: set<string>) {
    (forall n :: n in done ==> ReferencesDefined(f, n)) && PortsUnique(f.services, done)
  }

  method CheckService(f: ComposeFile, ghost done: set<string>, name: string, before: set<nat>)
    returns (published: set<nat>, errors: seq<ValidationError>)
    requires name in f.services && name !in done && Gathered(f.services, done, before)
    ensures Gathered(f.services, done + {name}, published)
    ensures AllGenuine(f, errors)
    ensures errors == [] && CleanSoFar(f, done) ==> CleanSoFar(f, done + {name})
  {
    var dependencies := CheckDependencies(f, name);
    var networks := CheckNetworks(f, name);
    var conflicts;
    published, conflicts := CheckPorts(f, done, name, before);
    errors := dependencies + networks + conflicts;
  }

  /** Accepts exactly the consistent files; every error it reports is real. */
  method Validate(f: ComposeFile) returns (r: Result<(), seq<ValidationError>>)
    ensures r.Ok? <==> Consistent(f)
    ensures r.Err? ==> r.error != [] && AllGenuine(f, r.error)
  {
    var errors: seq<ValidationError> := [];
    var published: set<nat> := {};
    var rest := f.services.Keys;
    ghost var done: set<string> := {};
    while rest != {}
      invariant done + rest == f.services.Keys && done !! rest
      invariant AllGenuine(f, errors)
      invariant errors == [] ==> CleanSoFar(f, done)
      invariant Gathered(f.services, done, published)
      decreases |rest|
    {
      var name :| name in rest;
      var more;
      published, more := CheckService(f, done, name, published);
      GenuineAppend(f, errors, more);
      errors := errors + more;
      rest := rest - {name};
      done := done + {name};
    }
    assert done == f.services.Keys;
    NoErrorIffConsistent(f, errors);
    return if errors == [] then Ok(()) else Err(errors);
  }

  lemma NoErrorIffConsistent(f: ComposeFile, errors: seq<ValidationError>)
    requires AllGenuine(f, errors) && (errors == [] ==> CleanSoFar(f, f.services.Keys))
    ensures errors == [] <==> Consistent(f)
  {
    if errors == [] {
      assert forall n :: n !in f.services ==> ReferencesDefined(f, n);
    } else {
      ErrorsRefute(f, errors);
    }
  }

  lemma GenuineAppend(f: ComposeFile, errors: seq<ValidationError>, more: seq<ValidationError>)
    requires AllGenuine(f, errors) && AllGenuine(f, more)
    ensures AllGenuine(f, errors + more)
  {
  }

  // ---------- Translation ----------

  datatype PortMapping = PortMapping(host: nat, vm: nat)
  datatype VolumeMapping = VolumeMapping(hostPath: string, vmPath: string)

  datatype CreateVmRequest = CreateVmRequest(
    image: string, vcpus: nat, memoryMb: nat, name: string, ports: seq<PortMapping>, volumes: seq<VolumeMapping>,
    networks: seq<string>)

  function BothPorts(host: string, vm: string): Option<PortMapping> {
    match (ParseUnsigned(host, U32), ParseUnsigned(vm, U32))
    case (Some(h), Some(v)) => Some(PortMapping(h, v))
    case _ => None
  }

  /** The mapping an entry is translated to: thirty-two bits wide, unlike in validation. */
  function TranslatePort(p: PortEntry): Option<PortMapping> {
    match p
    case LongPort(target, published, _, _) =>
      (match published case Some(h) => Some(PortMapping(h, target)) case None => None)
    case ShortPort(text) =>
      var parts := Split(text, ':');
      if |parts| == 2 then BothPorts(parts[0], parts[1])
      else if |parts| == 3 then BothPorts(parts[1], parts[2])
      else None
  }

  function TranslateVolume(v: VolumeEntry): Option<VolumeMapping> {
    match v
    case LongVolume(_, source, target, _) =>
      (match source case Some(s) => Some(VolumeMapping(s, target)) case None => None)
    case ShortVolume(text) =>
      var parts := Split(text, ':');
      if |parts| >= 2 then Some(VolumeMapping(parts[0], parts[1])) else None
  }

  /** Written out: a long entry's published and target ports, or the two numbers of a short one, whatever the address
      before them. */
  ghost predicate AsksPort(p: PortEntry, m: PortMapping) {
    match p
    case LongPort(target, published, _, _) => published.Some? && published.value == m.host && target == m.vm
    case ShortPort(text) => ShortAsksPort(text, m)
  }

  ghost predicate ShortAsksPort(text: string, m: PortMapping) {
    && m.host < 0x1_0000_0000 && m.vm < 0x1_0000_0000
    && exists h, v :: EndsWithPair(text, h, v) && Numeral(h, m.host) && Numeral(v, m.vm)
  }

  /** Written out: a long entry's source and target, or the first two parts of a short one, whatever follows them. */
  ghost predicate AsksVolume(v: VolumeEntry, m: VolumeMapping) {
    match v
    case LongVolume(_, source, target, _) => source.Some? && source.value == m.hostPath && target == m.vmPath
    case ShortVolume(text) => StartsWithPair(text, m.hostPath, m.vmPath)
  }

  lemma BothPortsIff(host: string, vm: string, m: PortMapping)
    ensures BothPorts(host, vm) == Some(m) <==>
      m.host < 0x1_0000_0000 && m.vm < 0x1_0000_0000 && Numeral(host, m.host) && Numeral(vm, m.vm)
  {
    ParseUnsignedIff(host, U32, m.host);
    ParseUnsignedIff(vm, U32, m.vm);
  }

  /** A short entry of two or three parts is read by its last two. */
  lemma ShortByLastTwo(text: string, parts: seq<string>, h: string, v: string)
    requires Split(text, ':') == parts && (parts == [h, v] || (|parts| == 3 && parts == [parts[0], h, v]))
    ensures TranslatePort(ShortPort(text)) == BothPorts(h, v) && Published(ShortPort(text)) == ParseUnsigned(h, U16)
  {
  }

  lemma EndsWithIsRead(text: string, h: string, v: string)
    requires EndsWithPair(text, h, v)
    ensures TranslatePort(ShortPort(text)) == BothPorts(h, v) && Published(ShortPort(text)) == ParseUnsigned(h, U16)
  {
    SplitPairLast(text, h, v);
    ShortByLastTwo(text, Split(text, ':'), h, v);
  }

  lemma LastTwo(text: string) returns (h: string, v: string)
    requires |Split(text, ':')| == 2 || |Split(text, ':')| == 3
    ensures EndsWithPair(text, h, v)
    ensures TranslatePort(ShortPort(text)) == BothPorts(h, v) && Published(ShortPort(text)) == ParseUnsigned(h, U16)
  {
    var parts := Split(text, ':');
    h, v := parts[|parts| - 2], parts[|parts| - 1];
    ShortByLastTwo(text, parts, h, v);
    SplitPairLast(text, h, v);
  }

  lemma ShortTranslated(text: string, m: PortMapping)
    requires TranslatePort(ShortPort(text)) == Some(m)
    ensures ShortAsksPort(text, m)
  {
    var h, v := LastTwo(text);
    BothPortsIff(h, v, m);
  }

  lemma ShortTranslates(text: string, m: PortMapping, h: string, v: string)
    requires m.host < U32 && m.vm < U32 && EndsWithPair(text, h, v) && Numeral(h, m.host) && Numeral(v, m.vm)
    ensures TranslatePort(ShortPort(text)) == Some(m)
  {
    EndsWithIsRead(text, h, v);
    BothPortsIff(h, v, m);
  }

  lemma ShortPortIff(text: string, m: PortMapping)
    ensures TranslatePort(ShortPort(text)) == Some(m) <==> ShortAsksPort(text, m)
  {
    if TranslatePort(ShortPort(text)) == Some(m) { ShortTranslated(text, m); }
    if ShortAsksPort(text, m) {
      var h, v :| EndsWithPair(text, h, v) && Numeral(h, m.host) && Numeral(v, m.vm);
      ShortTranslates(text, m, h, v);
    }
  }

  /** An entry is translated to a mapping exactly when it asks for it. */
  lemma TranslatePortIff(p: PortEntry, m: PortMapping)
    ensures TranslatePort(p) == Some(m) <==> AsksPort(p, m)
  {
    if p.ShortPort? { ShortPortIff(p.text, m); }
  }

  lemma TranslateVolumeIff(v: VolumeEntry, m: VolumeMapping)
    ensures TranslateVolume(v) == Some(m) <==> AsksVolume(v, m)
  {
    if v.ShortVolume? { SplitPairFirst(v.text, m.hostPath, m.vmPath); }
  }

  /** `values` are the present ones among `options`, in order; `at[a]` is where the a-th came from. */
  ghost predicate Selects<T>(options: seq<Option<T>>, values: seq<T>, at: seq<nat>) {
    && |at| == |values|
    && (forall a :: 0 <= a < |at| ==> at[a] < |options| && options[at[a]] == Some(values[a]))
    && (forall a, b :: 0 <= a < b < |at| ==> at[a] < at[b])
    && (forall i :: 0 <= i < |options| && options[i].Some? ==> i in at)
  }

  lemma SelectMore<T>(options: seq<Option<T>>, values: seq<T>, at: seq<nat>, o: Option<T>)
    requires Selects(options, values, at)
    ensures o.Some? ==> Selects(options + [o], values + [o.value], at + [|options|])
    ensures o.None? ==> Selects(options + [o], values, at)
  {
    if o.Some? {
      assert (at + [|options|])[|at|] == |options|;
      forall i | 0 <= i < |options + [o]| && (options + [o])[i].Some? ensures i in at + [|options|] {
        if i < |options| { assert i in at; }
      }
    }
  }

  lemma SelectedOnce<T>(options: seq<Option<T>>, values: seq<T>, at: seq<nat>, a: nat, b: nat)
    requires Selects(options, values, at) && a < |values| && b < |values| && at[a] == at[b]
    ensures a == b
  {
  }

  /** `ms` are what the entries mean, in order; `at[a]` is the entry of the a-th. Entries left out mean nothing. */
  ghost predicate MeansAt<E, M(!new)>(es: seq<E>, ms: seq<M>, means: (E, M) -> bool, at: seq<nat>) {
    && |at| == |ms|
    && (forall a :: 0 <= a < |at| ==> at[a] < |es| && means(es[at[a]], ms[a]))
    && (forall a, b :: 0 <= a < b < |at| ==> at[a] < at[b])
    && (forall i, m :: 0 <= i < |es| && means(es[i], m) ==> i in at)
  }

  ghost predicate InOrder<E, M(!new)>(es: seq<E>, ms: seq<M>, means: (E, M) -> bool) {
    exists at :: MeansAt(es, ms, means, at)
  }

  /** The mappings the port entries ask for, in order. */
  ghost predicate PortsAsked(ports: seq<PortEntry>, mappings: seq<PortMapping>) {
    InOrder(ports, mappings, (p, m) => AsksPort(p, m))
  }

  ghost predicate VolumesAsked(vs: seq<VolumeEntry>, mappings: seq<VolumeMapping>) {
    InOrder(vs, mappings, (v, m) => AsksVolume(v, m))
  }

  lemma SelectedInOrder<E, M(!new)>(es: seq<E>, options: seq<Option<M>>, ms: seq<M>, means: (E, M) -> bool,
                                    at: seq<nat>)
    requires |options| == |es| && Selects(options, ms, at)
    requires forall i, m :: 0 <= i < |es| ==> (options[i] == Some(m) <==> means(es[i], m))
    ensures InOrder(es, ms, means)
  {
    forall i, m | 0 <= i < |es| && means(es[i], m) ensures i in at {
      assert options[i] == Some(m);
    }
    assert MeansAt(es, ms, means, at);
  }

  lemma PortsInOrder(ports: seq<PortEntry>, mappings: seq<PortMapping>)
    requires TranslatesPorts(ports, mappings)
    ensures PortsAsked(ports, mappings)
  {
    var at :| Selects(Translations(ports), mappings, at);
    forall i, m | 0 <= i < |ports| ensures Translations(ports)[i] == Some(m) <==> AsksPort(ports[i], m) {
      TranslatePortIff(ports[i], m);
    }
    var means := (p, m) => AsksPort(p, m);
    SelectedInOrder(ports, Translations(ports), mappings, means, at);
  }

  function VolumeTranslations(vs: seq<VolumeEntry>): seq<Option<VolumeMapping>> {
    seq(|vs|, i requires 0 <= i < |vs| => TranslateVolume(vs[i]))
  }

  lemma {:induction false} VolumesSelected(vs: seq<VolumeEntry>) returns (at: seq<nat>)
    ensures Selects(VolumeTranslations(vs), TranslateVolumes(vs), at)
  {
    at := [];
    if vs != [] {
      var front, v := vs[..|vs| - 1], vs[|vs| - 1];
      at := VolumesSelected(front);
      SelectMore(VolumeTranslations(front), TranslateVolumes(front), at, TranslateVolume(v));
      assert VolumeTranslations(vs) == VolumeTranslations(front) + [TranslateVolume(v)];
      if TranslateVolume(v).Some? { at := at + [|front|]; }
    }
  }

  lemma VolumesInOrder(vs: seq<VolumeEntry>)
    ensures VolumesAsked(vs, TranslateVolumes(vs))
  {
    var at := VolumesSelected(vs);
    forall i, m | 0 <= i < |vs| ensures VolumeTranslations(vs)[i] == Some(m) <==> AsksVolume(vs[i], m) {
      TranslateVolumeIff(vs[i], m);
    }
    var means := (v, m) => AsksVolume(v, m);
    SelectedInOrder(vs, VolumeTranslations(vs), TranslateVolumes(vs), means, at);
  }

  function Translations(ports: seq<PortEntry>): seq<Option<PortMapping>> {
    seq(|ports|, i requires 0 <= i < |ports| => TranslatePort(ports[i]))
  }

  ghost predicate TranslatesPorts(ports: seq<PortEntry>, mappings: seq<PortMapping>) {
    exists at :: Selects(Translations(ports), mappings, at)
  }

  method TranslatePorts(ports: seq<PortEntry>) returns (mappings: seq<PortMapping>)
    ensures TranslatesPorts(ports, mappings)
    ensures PortsAsked(ports, mappings)
  {
    mappings := [];
    ghost var at: seq<nat> := [];
    var k := 0;
    while k < |ports|
      invariant 0 <= k <= |ports|
      invariant Selects(Translations(ports)[..k], mappings, at)
    {
      var m := TranslatePort(ports[k]);
      SelectMore(Translations(ports)[..k], mappings, at, m);
      assert Translations(ports)[..k + 1] == Translations(ports)[..k] + [m];
      if m.Some? {
        mappings := mappings + [m.value];
        at := at + [k];
      }
      k := k + 1;
    }
    assert Translations(ports)[..k] == Translations(ports);
    PortsInOrder(ports, mappings);
  }

  /** Up to sixteen bits, the host port a mapping gets is the one validation saw. */
  lemma SmallHostIsPublished(p: PortEntry)
    requires TranslatePort(p).Some? && TranslatePort(p).value.host < U16
    ensures Published(p) == Some(TranslatePort(p).value.host)
  {
  }

  /** A request says what its service says; the volume list is the entries' mappings in order. */
  ghost predicate RequestFor(name: string, s: ServiceV3, resources: (nat, nat), r: CreateVmRequest) {
    && r.name == name
    && r.image == (match s.image case Some(i) => i case None => "scratch")
    && (r.vcpus, r.memoryMb) == resources
    && TranslatesPorts(s.ports, r.ports)
    && r.volumes == TranslateVolumes(s.volumes)
    && r.networks == s.networks
  }

  /** A request for what the service's entries ask for, in their order. */
  ghost predicate AskedBy(name: string, s: ServiceV3, r: CreateVmRequest) {
    && r.name == name && r.networks == s.networks
    && (s.image.Some? ==> r.image == s.image.value) && (s.image.None? ==> r.image == "scratch")
    && PortsAsked(s.ports, r.ports)
    && VolumesAsked(s.volumes, r.volumes)
  }

  lemma RequestIsAskedFor(name: string, s: ServiceV3, resources: (nat, nat), r: CreateVmRequest)
    requires RequestFor(name, s, resources, r)
    ensures AskedBy(name, s, r)
  {
    PortsInOrder(s.ports, r.ports);
    VolumesInOrder(s.volumes);
  }

  function TranslateVolumes(vs: seq<VolumeEntry>): seq<VolumeMapping> {
    if vs == [] then []
    else
      TranslateVolumes(vs[..|vs| - 1])
      + (match TranslateVolume(vs[|vs| - 1]) case Some(m) => [m] case None => [])
  }

  method CollectVolumes(vs: seq<VolumeEntry>) returns (r: seq<VolumeMapping>)
    ensures r == TranslateVolumes(vs)
  {
    r := [];
    for k := 0 to |vs|
      invariant r == TranslateVolumes(vs[..k])
    {
      assert vs[..k + 1][..k] == vs[..k];
      match TranslateVolume(vs[k])
      case Some(m) => r := r + [m];
      case None =>
    }
    assert vs[..|vs|] == vs;
  }

  /** One request per service, in the order of the sorted names. */
  ghost predicate RequestsInOrder(f: ComposeFile, parse: string -> Option<F64>, rs: seq<CreateVmRequest>) {
    var names := Sorted(f.services.Keys);
    |rs| == |names| && forall i :: 0 <= i < |rs| ==>
      names[i] in f.services
      && RequestFor(names[i], f.services[names[i]], TranslateResources(parse, f.services[names[i]].deploy), rs[i])
  }

  /** Each is what its service asks for. */
  ghost predicate AllAskedFor(f: ComposeFile, rs: seq<CreateVmRequest>) {
    var names := Sorted(f.services.Keys);
    |rs| == |names|
    && forall i :: 0 <= i < |rs| ==> names[i] in f.services && AskedBy(names[i], f.services[names[i]], rs[i])
  }

  lemma RequestsAreAskedFor(f: ComposeFile, parse: string -> Option<F64>, rs: seq<CreateVmRequest>)
    requires RequestsInOrder(f, parse, rs)
    ensures AllAskedFor(f, rs)
  {
    var names := Sorted(f.services.Keys);
    forall i | 0 <= i < |rs| ensures names[i] in f.services && AskedBy(names[i], f.services[names[i]], rs[i]) {
      var s := f.services[names[i]];
      RequestIsAskedFor(names[i], s, TranslateResources(parse, s.deploy), rs[i]);
    }
  }

  ghost predicate MapsHost(rs: seq<CreateVmRequest>, i: int, a: int, host: nat) {
    0 <= i < |rs| && 0 <= a < |rs[i].ports| && rs[i].ports[a].host == host
  }

  /** No two mappings of the whole stack share a host port. */
  ghost predicate HostPortsDistinct(rs: seq<CreateVmRequest>) {
    forall i, a, j, b, host :: MapsHost(rs, i, a, host) && MapsHost(rs, j, b, host) ==> i == j && a == b
  }

  /** No two share one that fits sixteen bits. */
  ghost predicate SmallHostPortsDistinct(rs: seq<CreateVmRequest>) {
    forall i, a, j, b, host: nat :: MapsHost(rs, i, a, host) && MapsHost(rs, j, b, host) && host < U16 ==>
      i == j && a == b
  }

  ghost predicate TranslatesTo(s: Services, name: string, i: int, host: nat) {
    && name in s && 0 <= i < |s[name].ports|
    && TranslatePort(s[name].ports[i]).Some? && TranslatePort(s[name].ports[i]).value.host == host
  }

  /** No two entries of the stack are translated to the same host port beyond sixteen bits. */
  ghost predicate NoWideConflict(f: ComposeFile) {
    forall n, i, m, j, host ::
      host >= U16 && TranslatesTo(f.services, n, i, host) && TranslatesTo(f.services, m, j, host) ==> n == m && i == j
  }

  /** The request for one service. */
  method TranslateService(name: string, service: ServiceV3, parse: string -> Option<F64>) returns (r: CreateVmRequest)
    ensures RequestFor(name, service, TranslateResources(parse, service.deploy), r)
  {
    var resources := TranslateResources(parse, service.deploy);
    var ports := TranslatePorts(service.ports);
    var volumes := CollectVolumes(service.volumes);
    r := CreateVmRequest(
      match service.image case Some(i) => i case None => "scratch",
      resources.0, resources.1, name, ports, volumes, service.networks);
  }

  /** Succeeds exactly on consistent files. The stack's host ports then differ up to sixteen bits, and altogether
      exactly when no two entries name the same wider one. */
  method Translate(f: ComposeFile, parse: string -> Option<F64>)
    returns (r: Result<seq<CreateVmRequest>, seq<ValidationError>>)
    ensures r.Ok? <==> Consistent(f)
    ensures r.Ok? ==> RequestsInOrder(f, parse, r.value) && SmallHostPortsDistinct(r.value)
    ensures r.Ok? ==> AllAskedFor(f, r.value)
    ensures r.Ok? ==> (HostPortsDistinct(r.value) <==> NoWideConflict(f))
  {
    var valid := Validate(f);
    if valid.Err? {
      return Err(valid.error);
    }
    var requests: seq<CreateVmRequest> := [];
    var keys := SortKeys(f.services.Keys);
    var k := 0;
    while k < |keys|
      invariant 0 <= k <= |keys| && |requests| == k
      invariant forall i :: 0 <= i < k ==>
        keys[i] in f.services
        && RequestFor(keys[i], f.services[keys[i]], TranslateResources(parse, f.services[keys[i]].deploy), requests[i])
    {
      assert keys[k] in f.services.Keys;
      var request := TranslateService(keys[k], f.services[keys[k]], parse);
      requests := requests + [request];
      k := k + 1;
    }
    RequestsAreAskedFor(f, parse, requests);
    SmallHostsDistinct(f, parse, requests);
    HostPortsDistinctIff(f, parse, requests);
    return Ok(requests);
  }

  lemma SmallHostsDistinct(f: ComposeFile, parse: string -> Option<F64>, rs: seq<CreateVmRequest>)
    requires Consistent(f) && RequestsInOrder(f, parse, rs)
    ensures SmallHostPortsDistinct(rs)
  {
    forall i, a, j, b, host: nat | MapsHost(rs, i, a, host) && MapsHost(rs, j, b, host) && host < U16
      ensures i == j && a == b
    {
      MappingsDistinct(f, parse, rs, i, a, j, b, host);
    }
  }

  lemma HostPortsDistinctIff(f: ComposeFile, parse: string -> Option<F64>, rs: seq<CreateVmRequest>)
    requires Consistent(f) && RequestsInOrder(f, parse, rs)
    ensures HostPortsDistinct(rs) <==> NoWideConflict(f)
  {
    if NoWideConflict(f) { AllMappingsDistinct(f, parse, rs); }
    if HostPortsDistinct(rs) { AllEntriesDistinct(f, parse, rs); }
  }

  lemma AllMappingsDistinct(f: ComposeFile, parse: string -> Option<F64>, rs: seq<CreateVmRequest>)
    requires Consistent(f) && RequestsInOrder(f, parse, rs) && NoWideConflict(f)
    ensures HostPortsDistinct(rs)
  {
    forall i, a, j, b, host | MapsHost(rs, i, a, host) && MapsHost(rs, j, b, host) ensures i == j && a == b {
      MappingsDistinct(f, parse, rs, i, a, j, b, host);
    }
  }

  lemma AllEntriesDistinct(f: ComposeFile, parse: string -> Option<F64>, rs: seq<CreateVmRequest>)
    requires RequestsInOrder(f, parse, rs) && HostPortsDistinct(rs)
    ensures NoWideConflict(f)
  {
    forall n, i, m, j, host
      | host >= U16 && TranslatesTo(f.services, n, i, host) && TranslatesTo(f.services, m, j, host)
      ensures n == m && i == j
    {
      EntriesDistinct(f, parse, rs, n, i, m, j, host);
    }
  }

  /** Entries translated to one host port are one entry, as validation saw it or as no wide conflict implies. */
  lemma OneEntryPerHost(f: ComposeFile, n: string, i: nat, m: string, j: nat, host: nat)
    requires Consistent(f) && (host < U16 || NoWideConflict(f))
    requires TranslatesTo(f.services, n, i, host) && TranslatesTo(f.services, m, j, host)
    ensures n == m && i == j
  {
    if host < U16 {
      SmallHostIsPublished(f.services[n].ports[i]);
      SmallHostIsPublished(f.services[m].ports[j]);
      assert Publishes(f.services, n, i, host) && Publishes(f.services, m, j, host);
      assert n in f.services.Keys && m in f.services.Keys;
    }
  }

  lemma MappingsDistinct(f: ComposeFile, parse: string -> Option<F64>, rs: seq<CreateVmRequest>,
                         i: nat, a: nat, j: nat, b: nat, host: nat)
    requires Consistent(f) && RequestsInOrder(f, parse, rs) && (host < U16 || NoWideConflict(f))
    requires MapsHost(rs, i, a, host) && MapsHost(rs, j, b, host)
    ensures i == j && a == b
  {
    var names := Sorted(f.services.Keys);
    var x := MappingSource(f.services, names[i], rs[i].ports, a);
    var y := MappingSource(f.services, names[j], rs[j].ports, b);
    OneEntryPerHost(f, names[i], x, names[j], y, host);
    SortedIndex(f.services.Keys, i, j);
    OneMappingPerHost(f, names[i], rs[i].ports, a, b);
  }

  lemma SortedIndex(keys: set<string>, i: nat, j: nat)
    requires i < |Sorted(keys)| && j < |Sorted(keys)| && Sorted(keys)[i] == Sorted(keys)[j]
    ensures i == j
  {
    LexIrreflexive(Sorted(keys)[i]);
  }

  lemma SelectedIsTranslated(s: Services, name: string, mappings: seq<PortMapping>, at: seq<nat>, a: nat)
    requires name in s && Selects(Translations(s[name].ports), mappings, at) && a < |mappings|
    ensures TranslatesTo(s, name, at[a], mappings[a].host)
  {
    assert Translations(s[name].ports)[at[a]] == TranslatePort(s[name].ports[at[a]]);
  }

  /** The entry a mapping came from. */
  lemma MappingSource(s: Services, name: string, mappings: seq<PortMapping>, a: nat) returns (x: nat)
    requires name in s && TranslatesPorts(s[name].ports, mappings) && a < |mappings|
    ensures TranslatesTo(s, name, x, mappings[a].host)
  {
    var at :| Selects(Translations(s[name].ports), mappings, at);
    x := at[a];
    SelectedIsTranslated(s, name, mappings, at, a);
  }

  lemma OneMappingPerHost(f: ComposeFile, name: string, mappings: seq<PortMapping>, a: nat, b: nat)
    requires name in f.services && TranslatesPorts(f.services[name].ports, mappings) && Consistent(f)
    requires a < |mappings| && b < |mappings| && mappings[a].host == mappings[b].host
    requires mappings[a].host < U16 || NoWideConflict(f)
    ensures a == b
  {
    var at :| Selects(Translations(f.services[name].ports), mappings, at);
    SelectedIsTranslated(f.services, name, mappings, at, a);
    SelectedIsTranslated(f.services, name, mappings, at, b);
    OneEntryPerHost(f, name, at[a], name, at[b], mappings[a].host);
    SelectedOnce(Translations(f.services[name].ports), mappings, at, a, b);
  }

  lemma SelectedAt<T>(options: seq<Option<T>>, values: seq<T>, at: seq<nat>, i: nat) returns (a: nat)
    requires Selects(options, values, at) && i < |options| && options[i].Some?
    ensures a < |values| && at[a] == i && values[a] == options[i].value
  {
    assert i in at;
    a :| 0 <= a < |at| && at[a] == i;
  }

  /** The mapping of a translatable entry; different entries have different mappings. */
  lemma MappingsFor(s: Services, name: string, mappings: seq<PortMapping>, i: nat, j: nat, host: nat)
    returns (a: nat, b: nat)
    requires name in s && TranslatesPorts(s[name].ports, mappings)
    requires TranslatesTo(s, name, i, host) && TranslatesTo(s, name, j, host)
    ensures a < |mappings| && mappings[a].host == host && b < |mappings| && mappings[b].host == host
    ensures a == b ==> i == j
  {
    var options := Translations(s[name].ports);
    var at :| Selects(options, mappings, at);
    assert options[i] == TranslatePort(s[name].ports[i]) && options[j] == TranslatePort(s[name].ports[j]);
    a := SelectedAt(options, mappings, at, i);
    b := SelectedAt(options, mappings, at, j);
  }

  lemma EntriesDistinct(f: ComposeFile, parse: string -> Option<F64>, rs: seq<CreateVmRequest>,
                        n: string, i: nat, m: string, j: nat, host: nat)
    requires RequestsInOrder(f, parse, rs) && HostPortsDistinct(rs)
    requires TranslatesTo(f.services, n, i, host) && TranslatesTo(f.services, m, j, host)
    ensures n == m && i == j
  {
    var names := Sorted(f.services.Keys);
    assert n in names && m in names;
    var p :| 0 <= p < |names| && names[p] == n;
    var q :| 0 <= q < |names| && names[q] == m;
    var other := if n == m then j else i;
    var a, b := MappingsFor(f.services, n, rs[p].ports, i, other, host);
    var c, d := MappingsFor(f.services, m, rs[q].ports, j, j, host);
    assert MapsHost(rs, p, a, host) && MapsHost(rs, q, c, host);
    if n == m { assert MapsHost(rs, p, b, host); }
  }

  // ---------- Resources ----------

  /** A parsed floating-point number. Values are exact rationals; rounding is not modelled. */
  datatype F64 = Finite(value: real) | Infinite(positive: bool) | NotANumber

  /** `as u32` from a float: saturating, and zero for not-a-number. */
  function CastU32(x: real): (n: nat)
    ensures n < U32
  {
    if x < 0.0 then 0 else if x.Floor >= U32 then U32 - 1 else x.Floor
  }

  function Ceiling(x: real): real { -((-x).Floor as real) }

  /** `(x * factor).ceil() as u32`. */
  function ScaledCeiling(x: F64, factor: real): (n: nat)
    ensures n < U32
  {
    match x
    case Finite(v) => CastU32(Ceiling(v * factor))
    case Infinite(positive) => if positive then U32 - 1 else 0
    case NotANumber => 0
  }

  function Limits(deploy: Option<DeployConfig>): Option<ResourceConstraints> {
    if deploy.Some? && deploy.value.resources.Some? then deploy.value.resources.value.limits else None
  }

  predicate NumberChar(c: char) { IsDigit(c) || c == '.' }

  /** Length of the leading run of digits and points. */
  function NumberLength(s: string): (i: nat)
    ensures i <= |s|
    ensures forall j :: 0 <= j < i ==> NumberChar(s[j])
    ensures i < |s| ==> !NumberChar(s[i])
  {
    if s == "" || !NumberChar(s[0]) then 0 else 1 + NumberLength(s[1..])
  }

  function UnitFactor(unit: string): real {
    if unit == "B" then 1.0 / 1048576.0
    else if unit == "K" || unit == "KB" then 1.0 / 1024.0
    else if unit == "M" || unit == "MB" then 1.0
    else if unit == "G" || unit == "GB" then 1024.0
    else if unit == "T" || unit == "TB" then 1048576.0
    else 1.0
  }

  function ParseMemToMib(parse: string -> Option<F64>, mem: string): nat {
    var m := Upper(Trim(mem));
    var i := NumberLength(m);
    var val := match parse(m[..i]) case Some(v) => v case None => Finite(512.0);
    ScaledCeiling(val, UnitFactor(m[i..]))
  }

  /** `ResourceTranslator::translate`: virtual cpus and MiB. */
  function TranslateResources(parse: string -> Option<F64>, deploy: Option<DeployConfig>): (nat, nat) {
    var l := Limits(deploy);
    var cpu := if l.Some? && l.value.cpus.Some? then
                 match parse(l.value.cpus.value) case Some(c) => ScaledCeiling(c, 1000.0) / 1000 case None => 1
               else 1;
    var mem := if l.Some? && l.value.memory.Some? then ParseMemToMib(parse, l.value.memory.value) else 512;
    (if cpu == 0 then 1 else cpu, mem)
  }

  /** Whole MiB for `n` of a unit, rounded up and held to thirty-two bits; a unit that is none of these is MiB. */
  function MiB(n: nat, unit: string): nat {
    var exact :=
      if unit == "B" then (n + 0xF_FFFF) / 0x10_0000
      else if unit == "K" || unit == "KB" then (n + 1023) / 1024
      else if unit == "G" || unit == "GB" then n * 1024
      else if unit == "T" || unit == "TB" then n * 0x10_0000
      else n;
    if exact < 0x1_0000_0000 then exact else 0xFFFF_FFFF
  }

  lemma CeilingIs(x: real, q: nat)
    requires q as real - 1.0 < x <= q as real
    ensures Ceiling(x) == q as real && CastU32(Ceiling(x)) == if q < U32 then q else U32 - 1
  {
    var k: int := q;
    assert -(k as real) == (-k) as real;
    assert (-x).Floor == -k;
    assert (k as real).Floor == k;
  }

  /** The least integer at or above `x`, between zero and the largest of thirty-two bits. */
  ghost predicate SaturatedCeiling(x: real, n: nat) {
    && (x <= 0.0 ==> n == 0)
    && (0.0 < x <= 4294967295.0 ==> n as real - 1.0 < x <= n as real)
    && (x > 4294967295.0 ==> n == 0xFFFF_FFFF)
  }

  lemma CastIsLeast(x: real)
    ensures SaturatedCeiling(x, CastU32(Ceiling(x)))
  {
    var k: int := -(-x).Floor;
    assert (-x).Floor as real <= -x < (-x).Floor as real + 1.0;
    assert Ceiling(x) == k as real && (k as real).Floor == k;
    assert k as real - 1.0 < x <= k as real;
    if x <= 4294967295.0 { assert k as real < 4294967296.0; }
  }

  /** What is no number becomes zero, and an infinite one saturates. */
  lemma ScaledWithoutValue(factor: real)
    ensures ScaledCeiling(Infinite(true), factor) == 0xFFFF_FFFF
    ensures ScaledCeiling(Infinite(false), factor) == 0 == ScaledCeiling(NotANumber, factor)
  {
  }

  lemma SmallUnit(n: nat)
    ensures var q := (n + 0xF_FFFF) / 0x10_0000;
      CastU32(Ceiling(n as real * (1.0 / 1048576.0))) == if q < U32 then q else U32 - 1
    ensures var q := (n + 1023) / 1024;
      CastU32(Ceiling(n as real * (1.0 / 1024.0))) == if q < U32 then q else U32 - 1
  {
    var b, k := (n + 0xF_FFFF) / 0x10_0000, (n + 1023) / 1024;
    assert b * 0x10_0000 - 0x10_0000 < n <= b * 0x10_0000;
    CeilingIs(n as real * (1.0 / 1048576.0), b);
    assert k * 1024 - 1024 < n <= k * 1024;
    CeilingIs(n as real * (1.0 / 1024.0), k);
  }

  lemma LargeUnit(n: nat)
    ensures CastU32(Ceiling(n as real * 1.0)) == if n < U32 then n else U32 - 1
    ensures CastU32(Ceiling(n as real * 1024.0)) == if n * 1024 < U32 then n * 1024 else U32 - 1
    ensures CastU32(Ceiling(n as real * 1048576.0)) == if n * 0x10_0000 < U32 then n * 0x10_0000 else U32 - 1
  {
    CeilingIs(n as real * 1.0, n);
    CeilingIs(n as real * 1024.0, n * 1024);
    CeilingIs(n as real * 1048576.0, n * 0x10_0000);
  }

  lemma ScaledIsMiB(n: nat, unit: string)
    ensures ScaledCeiling(Finite(n as real), UnitFactor(unit)) == MiB(n, unit)
  {
    if unit in ["B", "K", "KB"] { SmallUnit(n); } else { LargeUnit(n); }
  }

  /** A memory text, whatever its case and the space around it, is read as a number of its unit; digits that do not
      parse count as 512. */
  lemma MemoryUnits(parse: string -> Option<F64>, mem: string, number: string, unit: string, n: nat)
    requires Upper(Trim(mem)) == number + unit
    requires forall i :: 0 <= i < |number| ==> '0' <= number[i] <= '9' || number[i] == '.'
    requires unit != "" ==> !('0' <= unit[0] <= '9') && unit[0] != '.'
    ensures parse(number) == Some(Finite(n as real)) ==> ParseMemToMib(parse, mem) == MiB(n, unit)
    ensures parse(number) == None ==> ParseMemToMib(parse, mem) == MiB(512, unit)
  {
    var m := number + unit;
    assert forall i :: 0 <= i < |number| ==> m[i] == number[i];
    if unit == "" { assert m == number; NumberLengthAll(number); } else { NumberLengthIs(m, |number|); }
    assert m[..|number|] == number && m[|number|..] == unit;
    ScaledIsMiB(n, unit);
    ScaledIsMiB(512, unit);
  }

  lemma {:induction false} NumberLengthAll(s: string)
    requires forall i :: 0 <= i < |s| ==> NumberChar(s[i])
    ensures NumberLength(s) == |s|
  {
    if s != "" { NumberLengthAll(s[1..]); }
  }

  /** The deployment's limits alone decide: without one there is a default, and so with a cpu count that does not
      parse; a count of thousandths is cut to whole cpus, of which there is at least one. */
  lemma LimitsDecide(parse: string -> Option<F64>, deploy: Option<DeployConfig>, thousandths: nat)
    requires thousandths < U32
    ensures deploy.None? || deploy.value.resources.None? || deploy.value.resources.value.limits.None? ==>
      TranslateResources(parse, deploy) == (1, 512)
    ensures forall limits, reservations ::
      deploy == Some(DeployConfig(Some(ResourceConfig(Some(limits), reservations)))) ==>
        var (cpus, mem) := TranslateResources(parse, deploy);
        && (limits.cpus.None? || parse(limits.cpus.value).None? ==> cpus == 1)
        && (limits.cpus.Some? && parse(limits.cpus.value) == Some(Finite(thousandths as real / 1000.0)) ==>
          cpus == if thousandths < 1000 then 1 else thousandths / 1000)
        && (limits.memory.None? ==> mem == 512)
        && (limits.memory.Some? ==> mem == ParseMemToMib(parse, limits.memory.value))
  {
    assert thousandths as real / 1000.0 * 1000.0 == thousandths as real;
    CeilingIs(thousandths as real, thousandths);
  }

  // ---------- From the first schema ----------

  /** The limits `to_v3` writes for a service; `show` prints a `u32` converted to `f32`. */
  function DeployOf(show: nat -> string, s: Compose.Service): Option<DeployConfig> {
    if s.cpus.None? && s.memory.None? then None
    else Some(DeployConfig(Some(ResourceConfig(Some(ResourceConstraints(
      match s.cpus case Some(c) => Some(show(c)) case None => None,
      match s.memory case Some(m) => Some(Digits(m) + "M") case None => None)), None))))
  }

  function ShortPorts(texts: seq<string>): seq<PortEntry> {
    seq(|texts|, i requires 0 <= i < |texts| => ShortPort(texts[i]))
  }

  function ShortVolumes(texts: seq<string>): seq<VolumeEntry> {
    seq(|texts|, i requires 0 <= i < |texts| => ShortVolume(texts[i]))
  }

  function OrEmpty<T>(o: Option<seq<T>>): seq<T> { match o case Some(s) => s case None => [] }

  /** A service in the third schema; its command and build source are not carried over. */
  function ServiceOf(show: nat -> string, s: Compose.Service): ServiceV3 {
    ServiceV3(
      s.image, ShortPorts(OrEmpty(s.ports)), ShortVolumes(OrEmpty(s.volumes)),
      match s.environment case Some(e) => e case None => map[],
      map d | d in OrEmpty(s.dependsOn) :: "service_started",
      DeployOf(show, s), s.networks, None)
  }

  /** What a service of the first schema becomes, field by field. */
  ghost predicate Carries(show: nat -> string, s: Compose.Service, v3: ServiceV3) {
    && v3.image == s.image && v3.networks == s.networks && v3.command == None
    && (if s.ports.Some? then CarriesPorts(s.ports.value, v3.ports) else v3.ports == [])
    && (if s.volumes.Some? then CarriesVolumes(s.volumes.value, v3.volumes) else v3.volumes == [])
    && (if s.environment.Some? then v3.environment == s.environment.value else v3.environment == map[])
    && (forall d :: d in v3.dependsOn <==> s.dependsOn.Some? && d in s.dependsOn.value)
    && (forall d :: d in v3.dependsOn ==> v3.dependsOn[d] == "service_started")
    && (s.cpus.None? && s.memory.None? ==> v3.deploy == None)
    && (s.cpus.Some? || s.memory.Some? ==> exists limits ::
      && v3.deploy == Some(DeployConfig(Some(ResourceConfig(Some(limits), None))))
      && (if s.cpus.Some? then limits.cpus == Some(show(s.cpus.value)) else limits.cpus == None)
      && (if s.memory.Some? then limits.memory == Some(Digits(s.memory.value) + "M") else limits.memory == None))
  }

  ghost predicate CarriesPorts(texts: seq<string>, entries: seq<PortEntry>) {
    |entries| == |texts| && forall i :: 0 <= i < |texts| ==> entries[i] == ShortPort(texts[i])
  }

  ghost predicate CarriesVolumes(texts: seq<string>, entries: seq<VolumeEntry>) {
    |entries| == |texts| && forall i :: 0 <= i < |texts| ==> entries[i] == ShortVolume(texts[i])
  }

  lemma ServiceOfCarries(show: nat -> string, s: Compose.Service)
    ensures Carries(show, s, ServiceOf(show, s))
  {
    if s.cpus.Some? || s.memory.Some? {
      var limits := ResourceConstraints(
        if s.cpus.Some? then Some(show(s.cpus.value)) else None,
        if s.memory.Some? then Some(Digits(s.memory.value) + "M") else None);
      assert ServiceOf(show, s).deploy == Some(DeployConfig(Some(ResourceConfig(Some(limits), None))));
    }
  }

  /** The file in the third schema: the same names, each service, network and volume carried over field by field. */
  ghost predicate CarriesFile(show: nat -> string, file: Compose.ComposeFile, r: ComposeFile) {
    && r.version == Some(file.version)
    && r.services.Keys == file.services.Keys && r.networks.Keys == file.networks.Keys
    && r.volumes.Keys == file.volumes.Keys
    && (forall n :: n in file.services ==> Carries(show, file.services[n], r.services[n]))
    && (forall n :: n in file.networks ==>
      r.networks[n].driver == file.networks[n].driver && r.networks[n].external == file.networks[n].external)
    && (forall n :: n in file.volumes ==>
      r.volumes[n].driver == file.volumes[n].driver && r.volumes[n].external == file.volumes[n].external)
  }

  lemma FileOfCarries(show: nat -> string, file: Compose.ComposeFile)
    ensures CarriesFile(show, file, FileOf(show, file))
  {
    forall n | n in file.services ensures Carries(show, file.services[n], FileOf(show, file).services[n]) {
      ServiceOfCarries(show, file.services[n]);
    }
  }

  /** A request for what the texts of a service of the first schema ask for, in their order. */
  ghost predicate AskedByTexts(name: string, s: Compose.Service, r: CreateVmRequest) {
    && r.name == name && r.networks == s.networks
    && (if s.image.Some? then r.image == s.image.value else r.image == "scratch")
    && (if s.ports.Some? then PortTextsAsked(s.ports.value, r.ports) else r.ports == [])
    && (if s.volumes.Some? then VolumeTextsAsked(s.volumes.value, r.volumes) else r.volumes == [])
  }

  ghost predicate PortTextsAsked(texts: seq<string>, mappings: seq<PortMapping>) {
    InOrder(texts, mappings, (t, m) => ShortAsksPort(t, m))
  }

  ghost predicate VolumeTextsAsked(texts: seq<string>, mappings: seq<VolumeMapping>) {
    InOrder(texts, mappings, (t, m: VolumeMapping) => StartsWithPair(t, m.hostPath, m.vmPath))
  }

  lemma SameMeaning<E, F, M(!new)>(es: seq<E>, fs: seq<F>, ms: seq<M>, means: (E, M) -> bool, other: (F, M) -> bool)
    requires InOrder(es, ms, means) && |fs| == |es|
    requires forall i, m :: 0 <= i < |es| ==> (means(es[i], m) <==> other(fs[i], m))
    ensures InOrder(fs, ms, other)
  {
    var at :| MeansAt(es, ms, means, at);
    forall i, m | 0 <= i < |fs| && other(fs[i], m) ensures i in at {
      assert means(es[i], m);
    }
    assert MeansAt(fs, ms, other, at);
  }

  lemma NothingMeant<E, M(!new)>(ms: seq<M>, means: (E, M) -> bool)
    requires InOrder([], ms, means)
    ensures ms == []
  {
    var at :| MeansAt([], ms, means, at);
    NothingMeantAt(ms, means, at);
  }

  lemma NothingMeantAt<E, M(!new)>(ms: seq<M>, means: (E, M) -> bool, at: seq<nat>)
    ensures MeansAt([], ms, means, at) ==> ms == []
  {
    var first := if at == [] then 0 else at[0];
  }

  /** What a service asks for, converted to the third schema and translated. */
  lemma ConvertedAsks(show: nat -> string, name: string, s: Compose.Service, r: CreateVmRequest)
    requires AskedBy(name, ServiceOf(show, s), r)
    ensures AskedByTexts(name, s, r)
  {
    var v3 := ServiceOf(show, s);
    ServiceOfCarries(show, s);
    var ports := (p, m) => AsksPort(p, m);
    var volumes := (v, m) => AsksVolume(v, m);
    if s.ports.Some? {
      SameMeaning(v3.ports, s.ports.value, r.ports, ports, (t, m) => ShortAsksPort(t, m));
    } else {
      NothingMeant(r.ports, ports);
    }
    if s.volumes.Some? {
      SameMeaning(v3.volumes, s.volumes.value, r.volumes, volumes,
        (t, m: VolumeMapping) => StartsWithPair(t, m.hostPath, m.vmPath));
    } else {
      NothingMeant(r.volumes, volumes);
    }
  }

  method ConvertService(svc: Compose.Service, show: nat -> string) returns (v3: ServiceV3)
    ensures v3 == ServiceOf(show, svc)
  {
    v3 := ServiceV3(svc.image, [], [], map[], map[], None, [], None);
    if svc.ports.Some? { v3 := v3.(ports := ShortPorts(svc.ports.value)); }
    if svc.volumes.Some? { v3 := v3.(volumes := ShortVolumes(svc.volumes.value)); }
    if svc.environment.Some? { v3 := v3.(environment := svc.environment.value); }
    if svc.dependsOn.Some? {
      var deps := CollectDependencies(svc.dependsOn.value);
      v3 := v3.(dependsOn := deps);
    }
    if svc.cpus.Some? {
      var limits := ResourceConstraints(Some(show(svc.cpus.value)), None);
      v3 := v3.(deploy := Some(DeployConfig(Some(ResourceConfig(Some(limits), None)))));
    }
    if svc.memory.Some? {
      var text := Some(Digits(svc.memory.value) + "M");
      var cpus := if svc.cpus.Some? then Some(show(svc.cpus.value)) else None;
      v3 := v3.(deploy := Some(DeployConfig(Some(ResourceConfig(Some(ResourceConstraints(cpus, text)), None)))));
    }
    v3 := v3.(networks := svc.networks);
    EmptyOptions(svc);
  }

  /** A network keeps its driver and whether it is external; its address configuration is dropped. */
  function NetworkOf(n: Compose.NetworkConfig): NetworkV3 { NetworkV3(n.driver, n.external) }

  function VolumeOf(v: Compose.VolumeConfig): VolumeV3 { VolumeV3(v.driver, v.external) }

  function FileOf(show: nat -> string, file: Compose.ComposeFile): ComposeFile {
    ComposeFile(
      Some(file.version),
      map n | n in file.services :: ServiceOf(show, file.services[n]),
      map n | n in file.networks :: NetworkOf(file.networks[n]),
      map n | n in file.volumes :: VolumeOf(file.volumes[n]))
  }

  method ToV3(file: Compose.ComposeFile, show: nat -> string) returns (r: ComposeFile)
    ensures r == FileOf(show, file)
    ensures CarriesFile(show, file, r)
  {
    FileOfCarries(show, file);
    var services := ConvertServices(file.services, show);
    var networks := ConvertNetworks(file.networks);
    var volumes := ConvertVolumes(file.volumes);
    r := ComposeFile(Some(file.version), services, networks, volumes);
  }

  method ConvertNetworks(networks: map<string, Compose.NetworkConfig>) returns (r: map<string, NetworkV3>)
    ensures r == map n | n in networks :: NetworkOf(networks[n])
  {
    r := map[];
    var rest := networks.Keys;
    while rest != {}
      invariant rest <= networks.Keys
      invariant r == map n | n in networks && n !in rest :: NetworkOf(networks[n])
      decreases |rest|
    {
      var name :| name in rest;
      r := r[name := NetworkV3(networks[name].driver, networks[name].external)];
      rest := rest - {name};
    }
  }

  method ConvertVolumes(volumes: map<string, Compose.VolumeConfig>) returns (r: map<string, VolumeV3>)
    ensures r == map n | n in volumes :: VolumeOf(volumes[n])
  {
    r := map[];
    var rest := volumes.Keys;
    while rest != {}
      invariant rest <= volumes.Keys
      invariant r == map n | n in volumes && n !in rest :: VolumeOf(volumes[n])
      decreases |rest|
    {
      var name :| name in rest;
      r := r[name := VolumeV3(volumes[name].driver, volumes[name].external)];
      rest := rest - {name};
    }
  }

  method ConvertServices(services: Compose.Services, show: nat -> string) returns (r: Services)
    ensures r == map n | n in services :: ServiceOf(show, services[n])
  {
    r := map[];
    var rest := services.Keys;
    while rest != {}
      invariant rest <= services.Keys
      invariant r == map n | n in services && n !in rest :: ServiceOf(show, services[n])
      decreases |rest|
    {
      var name :| name in rest;
      var v3 := ConvertService(services[name], show);
      r := r[name := v3];
      rest := rest - {name};
    }
  }

  lemma EmptyOptions(s: Compose.Service)
    ensures s.ports.None? ==> ShortPorts(OrEmpty(s.ports)) == []
    ensures s.volumes.None? ==> ShortVolumes(OrEmpty(s.volumes)) == []
    ensures s.dependsOn.None? ==> (map d | d in OrEmpty(s.dependsOn) :: "service_started") == map[]
  {
  }

  method CollectDependencies(deps: seq<string>) returns (m: map<string, string>)
    ensures m == map d | d in deps :: "service_started"
  {
    m := map[];
    for k := 0 to |deps|
      invariant m == map d | d in deps[..k] :: "service_started"
    {
      assert deps[..k + 1] == deps[..k] + [deps[k]];
      m := m[deps[k] := "service_started"];
    }
    assert deps[..|deps|] == deps;
  }

  /** Validation of the converted file finds an undefined dependency exactly when the start order would meet one, and an
      undefined network exactly when the file declares none of that name; unlike the start order it does not look for
      cycles. */
  lemma ConversionKeepsDependencies(file: Compose.ComposeFile, show: nat -> string, name: string)
    ensures ReferencesDefined(FileOf(show, file), name) <==>
      && (forall d :: !Compose.Dangling(file.services, name, d))
      && (name in file.services ==>
          forall net :: net in file.services[name].networks ==> net == "default" || net in file.networks)
  {
    var v3 := FileOf(show, file);
    assert forall d :: d in v3.services <==> d in file.services;
    assert forall net :: net in v3.networks <==> net in file.networks;
    if name in file.services {
      var s := file.services[name];
      assert v3.services[name] == ServiceOf(show, s);
      forall d ensures d in v3.services[name].dependsOn <==> Compose.Needs(file.services, name, d) {}
      if forall d :: !Compose.Dangling(file.services, name, d) {
        forall d | d in v3.services[name].dependsOn ensures d in v3.services {
          assert !Compose.Dangling(file.services, name, d);
        }
      }
    }
  }

  /** Reading decimal integers is exact. */
  ghost predicate ExactParse(parse: string -> Option<F64>) {
    forall n: nat :: n < 0x20_0000_0000_0000 ==> parse(Digits(n)) == Some(Finite(n as real))
  }

  /** An `f32` holds integers up to 2^24 exactly; larger ones are printed as some number that is no smaller. */
  ghost predicate ShowsF32(parse: string -> Option<F64>, show: nat -> string) {
    forall n: nat :: n < U32 ==>
      && (n <= 0x100_0000 ==> show(n) == Digits(n))
      && (n > 0x100_0000 ==>
        parse(show(n)).Some? && parse(show(n)).value.Finite? && parse(show(n)).value.value >= 16777216.0)
  }

  /** What the command line passes to the daemon without going through the third schema. */
  function DirectResources(s: Compose.Service): (nat, nat) {
    (match s.cpus case Some(c) => c case None => 1, match s.memory case Some(m) => m case None => 512)
  }

  lemma UpperKeeps(s: string)
    requires forall i :: 0 <= i < |s| ==> UpperChar(s[i]) == s[i]
    ensures Upper(s) == s
  {
  }

  lemma NumberLengthIs(s: string, i: nat)
    requires i < |s| && !NumberChar(s[i]) && forall j :: 0 <= j < i ==> NumberChar(s[j])
    ensures NumberLength(s) == i
  {
  }

  lemma NumberOfMemory(m: nat)
    ensures var t := Digits(m) + "M"; Upper(Trim(t)) == t && NumberLength(t) == |Digits(m)|
  {
    var d := Digits(m);
    var t := d + "M";
    assert IsDigit(t[0]) && t[|t| - 1] == 'M';
    TrimIsTrimmed(t);
    forall i | 0 <= i < |t| ensures UpperChar(t[i]) == t[i] {
      if i < |d| { assert IsDigit(d[i]); }
    }
    UpperKeeps(t);
    forall i | 0 <= i < |d| ensures NumberChar(t[i]) { assert IsDigit(d[i]); }
    NumberLengthIs(t, |d|);
  }

  lemma MemoryAgrees(parse: string -> Option<F64>, m: nat)
    requires ExactParse(parse) && m < U32
    ensures ParseMemToMib(parse, Digits(m) + "M") == m
  {
    NumberOfMemory(m);
    var t := Digits(m) + "M";
    assert t[..|Digits(m)|] == Digits(m) && t[|Digits(m)|..] == "M";
    CeilingOfInt(m);
  }

  lemma CeilingOfInt(n: nat)
    ensures Ceiling(n as real) == n as real && (n as real).Floor == n && n as real * 1.0 == n as real
  {
    assert (-(n as real)).Floor == -(n as int);
  }

  lemma CpusAgreeIff(parse: string -> Option<F64>, show: nat -> string, c: nat)
    requires ExactParse(parse) && ShowsF32(parse, show) && c < U32
    ensures parse(show(c)).Some?
    ensures var v := ScaledCeiling(parse(show(c)).value, 1000.0) / 1000;
      (if v == 0 then 1 else v) == c <==> 1 <= c <= 4294967
  {
    if c <= 0x100_0000 {
      CeilingOfInt(c * 1000);
      assert c as real * 1000.0 == (c * 1000) as real;
    } else {
      var x := parse(show(c)).value.value;
      LargeSaturates(x);
    }
  }

  lemma LargeSaturates(x: real)
    requires x >= 16777216.0
    ensures CastU32(Ceiling(x * 1000.0)) == U32 - 1
  {
    var y := x * 1000.0;
    assert y >= 16777216000.0;
    assert Ceiling(y) >= y;
  }

  /** Converting to the third schema and translating gives the resources the command line would pass directly, exactly
      when the cpu count is absent or between 1 and 4294967: a count of zero becomes one, and beyond the bound the
      milli-cpu value saturates. Any memory size agrees. */
  lemma ResourcesAgreeIff(parse: string -> Option<F64>, show: nat -> string, s: Compose.Service)
    requires ExactParse(parse) && ShowsF32(parse, show)
    requires (s.cpus.Some? ==> s.cpus.value < U32) && (s.memory.Some? ==> s.memory.value < U32)
    ensures TranslateResources(parse, ServiceOf(show, s).deploy) == DirectResources(s)
       <==> s.cpus.None? || 1 <= s.cpus.value <= 4294967
  {
    if s.memory.Some? { MemoryAgrees(parse, s.memory.value); }
    if s.cpus.Some? { CpusAgreeIff(parse, show, s.cpus.value); }
  }

  // ---------- The sixteen-bit check does not see wider ports ----------

  lemma WidePortIsInvisible(host: nat, vm: nat)
    requires U16 <= host < U32 && vm < U32
    ensures var p := ShortPort(Digits(host) + ":" + Digits(vm));
      Published(p) == None && TranslatePort(p) == Some(PortMapping(host, vm))
  {
    DigitsNoColon(host);
    DigitsNoColon(vm);
    SplitTwo(Digits(host) + ":" + Digits(vm), Digits(host), Digits(vm));
    ParseDigits(host, U16);
    ParseDigits(host, U32);
    ParseDigits(vm, U32);
  }

  /** Two services with the same port entry. */
  function Claimants(p: PortEntry): ComposeFile {
    var s := ServiceV3(None, [p], [], map[], map[], None, [], None);
    ComposeFile(None, map["a" := s, "b" := s], map[], map[])
  }

  lemma ClaimantsConsistent(p: PortEntry)
    requires Published(p).None?
    ensures Consistent(Claimants(p))
  {
    var f := Claimants(p);
    forall n, i, port ensures !Publishes(f.services, n, i, port) {}
  }

  lemma ClaimantsServices(p: PortEntry)
    ensures |Claimants(p).services.Keys| == 2
    ensures forall n :: n in Claimants(p).services.Keys ==> Claimants(p).services[n].ports == [p]
  {
    assert Claimants(p).services.Keys == {"a", "b"} && "a"[0] != "b"[0];
  }

  lemma BothClaim(p: PortEntry, m: PortMapping, parse: string -> Option<F64>, rs: seq<CreateVmRequest>, i: nat)
    requires TranslatePort(p) == Some(m) && RequestsInOrder(Claimants(p), parse, rs) && i < 2
    ensures |rs| == 2 && exists a :: MapsHost(rs, i, a, m.host)
  {
    var f := Claimants(p);
    var names := Sorted(f.services.Keys);
    ClaimantsServices(p);
    assert names[i] in names;
    var a, _ := MappingsFor(f.services, names[i], rs[i].ports, 0, 0, m.host);
    assert MapsHost(rs, i, a, m.host);
  }

  /** Every host port beyond sixteen bits but within thirty-two can be claimed by two services: validation accepts the
      file, and both requests map the port. */
  lemma WideHostPortsEscapeValidation(host: nat, vm: nat, parse: string -> Option<F64>, rs: seq<CreateVmRequest>)
    requires U16 <= host < U32 && vm < U32
    requires RequestsInOrder(Claimants(ShortPort(Digits(host) + ":" + Digits(vm))), parse, rs)
    ensures Consistent(Claimants(ShortPort(Digits(host) + ":" + Digits(vm))))
    ensures |rs| == 2 && (exists a :: MapsHost(rs, 0, a, host)) && (exists b :: MapsHost(rs, 1, b, host))
  {
    var p := ShortPort(Digits(host) + ":" + Digits(vm));
    WidePortIsInvisible(host, vm);
    ClaimantsConsistent(p);
    BothClaim(p, PortMapping(host, vm), parse, rs, 0);
    BothClaim(p, PortMapping(host, vm), parse, rs, 1);
  }
}
