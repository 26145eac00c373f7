/** test/test01_server.cpp: registering services from a file and planning threads for them. */
module ServiceBridge {
  import opened Wrappers
  import opened Bytes
  import opened Csv

  const COMMA: Byte := 44
  const MIN_ATTRIBUTES := 4
  const MAX_ELEMENTS := 32

  /** `std::stoull`: None where it throws. */
  type NumberReader = Bytes -> Option<nat>

  datatype Service = Service(topic: Bytes, queueSize: nat)

  /** What a line of the file says. */
  datatype Spec = TooFew | Unreadable | Spec(topic: Bytes, queueSize: nat, maxLength: nat)

  function ReadSpec(read: NumberReader, line: Bytes): Spec {
    var fields := Split(line, COMMA);
    if |fields| < MIN_ATTRIBUTES then TooFew
    else if read(fields[1]).None? || read(fields[2]).None? || read(fields[3]).None? then Unreadable
    else
      var request, response := read(fields[2]).value, read(fields[3]).value;
      Spec(fields[0], read(fields[1]).value, if request < response then response else request)
  }

  /** How many of the fields of a line are found: all, unless the last piece is a single byte, or alone with nothing after it. */
  function Found(ps: seq<Padded>): nat
    requires ps != []
  {
    if LastIsKept(ps) then |ps| else |ps| - 1
  }

  /**
   * A line of fields with commas between them and any whitespace around them is read by its first four fields if four
   * are found, whatever follows them: name, queue size, and two lengths that are acceptable up to 32. Otherwise it
   * counts as too short, also if it has four fields but the last is a single digit up to the end of the line.
   */
  lemma {:induction false} WrittenLineIsRead(read: NumberReader, ps: seq<Padded>)
    requires ps != [] && forall i | 0 <= i < |ps| :: ValidPadded(ps[i], 44)
    requires Found(ps) >= 4 ==> read(ps[1].field).Some? && read(ps[2].field).Some? && read(ps[3].field).Some?
    ensures var spec := ReadSpec(read, Join(PrintAll(ps), 44));
      if Found(ps) >= 4 then
        && spec.Spec? && spec.topic == ps[0].field && Some(spec.queueSize) == read(ps[1].field)
        && (Valid(spec) <==> read(ps[2].field).value <= 32 && read(ps[3].field).value <= 32)
      else spec == TooFew
  {
    if LastIsKept(ps) {
      SplitJoined(ps, 44);
    } else if |ps| >= 2 {
      LastByteIsLost(ps, 44);
    } else {
      PiecesOfPadded(ps, 44);
      SplitIsNotLonger(Join(PrintAll(ps), 44), 44);
    }
  }

  lemma OneByteField(c: Byte, rest: Bytes)
    requires c != COMMA
    ensures Pieces([c, COMMA] + rest, COMMA) == [[c]] + Pieces(rest, COMMA)
  {
    FirstPiece([c], rest, COMMA);
    assert [c, COMMA] + rest == [c] + [COMMA] + rest;
  }

  /** "a,1,4,8" is not read as a service. */
  lemma DocumentedLineIsSkipped(read: NumberReader)
    ensures ReadSpec(read, [97, 44] + ([49, 44] + ([52, 44] + [56]))) == TooFew
  {
    FirstPiece([56], [], COMMA);
    OneByteField(52, [56]);
    OneByteField(49, [52, COMMA] + [56]);
    OneByteField(97, [49, COMMA] + ([52, COMMA] + [56]));
    ShortLastIsNoField([97, COMMA] + ([49, COMMA] + ([52, COMMA] + [56])), COMMA);
  }

  /** A line that describes a service. */
  predicate Valid(spec: Spec) {
    spec.Spec? && spec.maxLength <= MAX_ELEMENTS
  }

  function Topics(services: seq<Service>): set<Bytes> {
    set s | s in services :: s.topic
  }

  function Register(services: seq<Service>, spec: Spec): seq<Service> {
    if Valid(spec) && spec.topic !in Topics(services) then services + [Service(spec.topic, spec.queueSize)] else services
  }

  function RegisterAll(specs: seq<Spec>): seq<Service> {
    if specs == [] then [] else Register(RegisterAll(specs[..|specs| - 1]), specs[|specs| - 1])
  }

  function Specs(read: NumberReader, lines: seq<Bytes>): (r: seq<Spec>)
    ensures |r| == |lines|
    ensures forall i | 0 <= i < |lines| :: Describes(read, lines[i], r[i])
  {
    seq(|lines|, i requires 0 <= i < |lines| => ReadSpec(read, lines[i]))
  }

  ghost predicate Describes(read: NumberReader, line: Bytes, spec: Spec) {
    spec == ReadSpec(read, line)
  }

  /** Line i is the first valid one of its name, and describes the service. */
  ghost predicate Introduces(specs: seq<Spec>, i: nat, service: Service) {
    && i < |specs| && Valid(specs[i]) && service == Service(specs[i].topic, specs[i].queueSize)
    && forall k | 0 <= k < i :: Valid(specs[k]) ==> specs[k].topic != service.topic
  }

  /** `first[k]` is the line that introduces service k; the lines come in order and no valid name is missing. */
  ghost predicate FirstValidLines(specs: seq<Spec>, services: seq<Service>, first: seq<nat>) {
    && |first| == |services|
    && (forall k | 0 <= k < |first| :: Introduces(specs, first[k], services[k]))
    && (forall j, k | 0 <= j < k < |first| :: first[j] < first[k])
    && (forall i | 0 <= i < |specs| :: Valid(specs[i]) ==> specs[i].topic in Topics(services))
  }

  lemma TopicOf(services: seq<Service>, k: nat)
    requires k < |services|
    ensures services[k].topic in Topics(services)
  {
    assert services[k] in services;
  }

  lemma TopicsSnoc(services: seq<Service>, s: Service)
    ensures Topics(services + [s]) == Topics(services) + {s.topic}
  {
    assert s in services + [s];
    assert forall t | t in services :: t in services + [s];
  }

  lemma StillIntroduces(specs: seq<Spec>, i: nat, service: Service, spec: Spec)
    requires Introduces(specs, i, service)
    ensures Introduces(specs + [spec], i, service)
  {
  }

  lemma NewIntroduces(specs: seq<Spec>, services: seq<Service>, spec: Spec)
    requires forall i | 0 <= i < |specs| :: Valid(specs[i]) ==> specs[i].topic in Topics(services)
    requires Valid(spec) && spec.topic !in Topics(services)
    ensures Introduces(specs + [spec], |specs|, Service(spec.topic, spec.queueSize))
  {
  }

  lemma NothingAdded(specs: seq<Spec>, services: seq<Service>, first: seq<nat>, spec: Spec)
    requires FirstValidLines(specs, services, first)
    requires Valid(spec) ==> spec.topic in Topics(services)
    ensures FirstValidLines(specs + [spec], services, first)
  {
    forall k | 0 <= k < |first| ensures Introduces(specs + [spec], first[k], services[k]) {
      StillIntroduces(specs, first[k], services[k], spec);
    }
  }

  lemma ServiceAdded(specs: seq<Spec>, services: seq<Service>, first: seq<nat>, spec: Spec)
    requires FirstValidLines(specs, services, first)
    requires Valid(spec) && spec.topic !in Topics(services)
    ensures FirstValidLines(specs + [spec], services + [Service(spec.topic, spec.queueSize)], first + [|specs|])
  {
    NewIntroduces(specs, services, spec);
    TopicsSnoc(services, Service(spec.topic, spec.queueSize));
    forall k | 0 <= k < |first| ensures Introduces(specs + [spec], first[k], services[k]) {
      StillIntroduces(specs, first[k], services[k], spec);
    }
  }

  /** Services come in the order of the first valid line of each name; an oversized line registers and blocks nothing. */
  lemma {:induction false} RegistrationOrder(specs: seq<Spec>) returns (first: seq<nat>)
    ensures FirstValidLines(specs, RegisterAll(specs), first)
  {
    if specs == [] {
      first := [];
    } else {
      var init, spec := specs[..|specs| - 1], specs[|specs| - 1];
      var services := RegisterAll(init);
      var before := RegistrationOrder(init);
      assert init + [spec] == specs;
      if Valid(spec) && spec.topic !in Topics(services) {
        ServiceAdded(init, services, before, spec);
        first := before + [|init|];
      } else {
        NothingAdded(init, services, before, spec);
        first := before;
      }
    }
  }

  ghost predicate SomeValid(specs: seq<Spec>) {
    exists i :: 0 <= i < |specs| && Valid(specs[i])
  }

  /** There is a service, so that `init_server` does not divide by zero, iff some line describes one. */
  lemma {:induction false} ServicesIffSomeValid(specs: seq<Spec>)
    ensures Topics(RegisterAll(specs)) != {} <==> SomeValid(specs)
  {
    var services := RegisterAll(specs);
    var first := RegistrationOrder(specs);
    if Topics(services) != {} {
      assert services != [];
      assert Introduces(specs, first[0], services[0]);
    }
  }

  /** Topic names are pairwise distinct. */
  lemma {:induction false} TopicsAreDistinct(specs: seq<Spec>, j: nat, k: nat)
    requires j < k < |RegisterAll(specs)|
    ensures RegisterAll(specs)[j].topic != RegisterAll(specs)[k].topic
  {
    if specs != [] {
      var services := RegisterAll(specs[..|specs| - 1]);
      if k < |services| {
        TopicsAreDistinct(specs[..|specs| - 1], j, k);
      } else {
        TopicOf(services, j);
      }
    }
  }

  lemma RegisterNext(specs: seq<Spec>, i: nat)
    requires i < |specs|
    ensures RegisterAll(specs[..i + 1]) == Register(RegisterAll(specs[..i]), specs[i])
    ensures !specs[i].Spec? ==> RegisterAll(specs[..i + 1]) == RegisterAll(specs[..i])
  {
    assert specs[..i + 1][..i] == specs[..i];
  }

  // Threads.

  /** `min(CPU_lim, n)`, where a limit of 0 means that it is not known. */
  function Clamp(limit: nat, n: nat): nat {
    if limit > 0 && limit < n then limit else n
  }

  /** Threads for each service. */
  function PerTopic(total: nat, services: nat): nat
    requires services > 0
  {
    total / services + if services > 1 then total % services else 0
  }

  /** `t` is what is wanted, or the limit if that is known and less. */
  predicate Limited(t: nat, limit: nat, wanted: nat) {
    t <= wanted && (limit > 0 ==> t <= limit) && (t == wanted || (limit > 0 && t == limit))
  }

  function Plan(limit: nat, requested: nat, services: nat): nat
    requires services > 0
  {
    PerTopic(Clamp(limit, requested * services), services)
  }

  lemma DivMod(total: nat, services: nat)
    requires services > 0
    ensures total == total / services * services + total % services
    ensures 0 <= total / services && 0 <= total % services < services
    ensures services == 1 ==> total % services == 0
  {
  }

  lemma PerTopicTotal(total: nat, services: nat)
    requires services > 0
    ensures PerTopic(total, services) * services - total == (services - 1) * (total % services)
  {
    DivMod(total, services);
    var q, m := total / services, total % services;
    assert services > 1 ==> (q + m) * services == q * services + m * services;
  }

  /**
   * The total that is planned is a multiple of the number of services. It exceeds what was wanted within the limit by
   * exactly (n - 1) times the remainder, so by at most (n - 1)^2, and the limit by no more; every service gets a thread.
   */
  lemma {:induction false} PlanBound(limit: nat, requested: nat, services: nat)
    requires services > 0 && requested > 0
    ensures var total := Clamp(limit, requested * services);
      var threads := Plan(limit, requested, services) * services;
      && Limited(total, limit, requested * services)
      && (limit > 0 ==> threads <= limit + (services - 1) * (services - 1))
      && threads - total == (services - 1) * (total % services)
      && total <= threads <= total + (services - 1) * (services - 1)
      && Plan(limit, requested, services) >= 1
  {
    var total := Clamp(limit, requested * services);
    PerTopicTotal(total, services);
    DivMod(total, services);
    Monotone(services - 1, total % services, services - 1);
    assert requested * services > 0;
    if total / services == 0 {
      assert total / services * services == 0;
    }
  }

  lemma Monotone(a: nat, b: nat, c: nat)
    requires b <= c
    ensures 0 <= a * b <= a * c
  {
    assert a * c == a * b + a * (c - b);
  }

  lemma PlanOfMultiple(k: nat, services: nat)
    requires services > 0
    ensures PerTopic(k * services, services) == k
  {
    DivisionIsUnique(services, k, 0);
    assert k * services + 0 == k * services;
  }

  /** Without a clamp the plan is the request, and planning again from a plan gives the same plan. */
  lemma {:induction false} PlanIsFixedPoint(limit: nat, requested: nat, services: nat)
    requires services > 0 && requested > 0
    ensures limit == 0 || requested * services <= limit ==> Plan(limit, requested, services) == requested
    ensures var plan := Plan(limit, requested, services); Plan(limit, plan, services) == plan
  {
    PlanOfMultiple(requested, services);
    if limit > 0 && limit < requested * services {
      PlanBound(limit, requested, services);
    }
  }

  class Server {
    var services: seq<Service>
    var serviceNames: set<Bytes>
    var threadsPerTopic: nat
    var totalThreads: nat
    var numServices: nat
    var threads: seq<nat>

    constructor (threadsPerTopic: nat)
      ensures services == [] && serviceNames == {} && threads == []
      ensures this.threadsPerTopic == threadsPerTopic && totalThreads == 0 && numServices == 0
    {
      services, serviceNames, threads := [], {}, [];
      this.threadsPerTopic, totalThreads, numServices := threadsPerTopic, 0, 0;
    }

    method ReadLine(read: NumberReader, line: Bytes) returns (spec: Spec)
      ensures spec == ReadSpec(read, line)
    {
      var fields := SplitCsvLine(line, COMMA);
      if |fields| < MIN_ATTRIBUTES {
        return TooFew;
      }
      var queueLength, requestLength, responseLength := read(fields[1]), read(fields[2]), read(fields[3]);
      if queueLength.None? || requestLength.None? || responseLength.None? {
        return Unreadable;
      }
      var maxLength := if requestLength.value < responseLength.value then responseLength.value else requestLength.value;
      spec := Spec(fields[0], queueLength.value, maxLength);
    }

    /** Registers a service unless the name is taken or the lengths are too large. */
    method RegisterSpec(spec: Spec)
      requires spec.Spec? && serviceNames == Topics(services)
      modifies this`services, this`serviceNames
      ensures services == Register(old(services), spec) && serviceNames == Topics(services)
    {
      if spec.topic !in serviceNames {
        if spec.maxLength <= MAX_ELEMENTS {
          TopicsSnoc(services, Service(spec.topic, spec.queueSize));
          services := services + [Service(spec.topic, spec.queueSize)];
          serviceNames := serviceNames + {spec.topic};
        }
      }
    }

    /** The loop over the lines: how many are done, which is all unless `stoull` throws at the next. */
    method RegisterLines(read: NumberReader, lines: seq<Bytes>, ghost specs: seq<Spec>) returns (i: nat)
      requires |specs| == |lines|
      requires forall i {:trigger Describes(read, lines[i], specs[i])} | 0 <= i < |lines| :: Describes(read, lines[i], specs[i])
      requires services == [] && serviceNames == {}
      modifies this`services, this`serviceNames
      ensures i <= |lines| && services == RegisterAll(specs[..i]) && serviceNames == Topics(services)
      ensures forall k | 0 <= k < i :: !specs[k].Unreadable?
      ensures i < |lines| ==> specs[i].Unreadable?
    {
      i := 0;
      while i < |lines|
        invariant 0 <= i <= |lines|
        invariant services == RegisterAll(specs[..i]) && serviceNames == Topics(services)
        invariant forall k | 0 <= k < i :: !specs[k].Unreadable?
      {
        var spec := ReadLine(read, lines[i]);
        assert Describes(read, lines[i], specs[i]);
        RegisterNext(specs, i);
        if spec.Unreadable? {
          return;
        }
        if spec.Spec? {
          RegisterSpec(spec);
        }
        i := i + 1;
      }
    }

    /** `parse_service_file` on the lines of the file; None where an exception leaves it. */
    method ParseServiceFile(read: NumberReader, lines: seq<Bytes>) returns (result: Option<bool>)
      requires services == [] && serviceNames == {}
      modifies this`services, this`serviceNames
      ensures serviceNames == Topics(services)
      ensures result.Some? <==> Unreadable !in Specs(read, lines)
      ensures result.Some? ==> services == RegisterAll(Specs(read, lines)) && result.value == (lines != [])
      ensures result.Some? ==> (|serviceNames| > 0 <==> SomeValid(Specs(read, lines)))
      ensures result.None? ==> exists n | 0 <= n < |lines| ::
        && Specs(read, lines)[n] == Unreadable && Unreadable !in Specs(read, lines)[..n]
        && services == RegisterAll(Specs(read, lines)[..n])
    {
      ServicesIffSomeValid(Specs(read, lines));
      if |lines| < 1 {
        return Some(false);
      }
      ghost var specs := Specs(read, lines);
      var count := RegisterLines(read, lines, specs);
      if count < |lines| {
        assert specs[count] == Unreadable;
        return None;
      }
      assert specs[..count] == specs;
      result := Some(true);
    }

    method CreateThreads(count: nat)
      modifies this`threads
      ensures |threads| == |old(threads)| + count && old(threads) <= threads
    {
      var i := 0;
      while i < count
        invariant 0 <= i <= count
        invariant |threads| == |old(threads)| + i && old(threads) <= threads
      {
        threads := threads + [i];
        i := i + 1;
      }
    }

    /** Steps 3 and on of `init_server`. */
    method InitServer(hardwareConcurrency: nat)
      requires |serviceNames| > 0
      modifies this`threadsPerTopic, this`totalThreads, this`numServices, this`threads
      ensures numServices == |serviceNames|
      ensures threadsPerTopic == Plan(hardwareConcurrency * 2, old(threadsPerTopic), |serviceNames|)
      ensures totalThreads == threadsPerTopic * |serviceNames|
      ensures exists t: nat ::
        && Limited(t, 2 * hardwareConcurrency, old(threadsPerTopic) * |serviceNames|)
        && totalThreads - t == (|serviceNames| - 1) * (t % |serviceNames|)
      ensures |threads| == |old(threads)| + totalThreads && old(threads) <= threads
    {
      numServices := |serviceNames|;
      ghost var total := Clamp(hardwareConcurrency * 2, threadsPerTopic * numServices);
      PerTopicTotal(total, numServices);
      assert Limited(total, 2 * hardwareConcurrency, threadsPerTopic * numServices);
      PlanThreads(hardwareConcurrency * 2);
      CreateThreads(totalThreads);
    }

    method PlanThreads(limit: nat)
      requires numServices > 0
      modifies this`threadsPerTopic, this`totalThreads
      ensures threadsPerTopic == Plan(limit, old(threadsPerTopic), numServices)
      ensures totalThreads == threadsPerTopic * numServices
    {
      totalThreads := Clamp(limit, threadsPerTopic * numServices);
      threadsPerTopic := PerTopic(totalThreads, numServices);
      totalThreads := threadsPerTopic * numServices;
    }
  }
}
