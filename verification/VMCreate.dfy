/** Virtual machine creation: translate, resolve the default network, create, and recover from a conflict. */
module VMCreate {
  import opened Grpc
  import opened Basics
  import opened ResourceStore
  import opened StatusMapping
  import D = Disk
  import N = Network

  datatype VMSpec = VMSpec(
    name: string, labels: Option<Labels>, templateId: string, instanceType: string, image: string, disks: seq<D.VMDisk>,
    access: Option<Access>, windows: Option<bool>)

  datatype Access = Access(sshPublicKey: Option<string>)

  datatype VMBody = VMBody(
    templateId: string, instanceType: string, imageSourceType: string, imageSourceRef: string,
    bootDisk: int, additionalDisks: seq<int>, sshPublicKey: Option<string>, isWindows: Option<bool>,
    subnets: seq<string>)

  /** What the store reports of a virtual machine besides what was submitted. */
  datatype ObservedVM = ObservedVM(state: VMState, internalIp: string, externalIp: string)

  datatype ApiVM = ApiVM(id: string, path: string, status: VMStatus, internalIp: string, externalIp: string)

  type VMOp = Op<VMBody, ObservedVM>

  /** What the network and the store do during one Create, and what other requests do between its Create and Get
      calls. */
  datatype Environment = Environment(
    network: N.Environment, observed: ObservedVM, create: Fault, between: seq<VMOp>, get: Fault)

  /** toAPIVM. */
  function ToApiVM(v: Resource<VMBody, ObservedVM>): (r: ApiVM)
    ensures r.id == v.sent.id && r.path == "vms/" + r.id
    ensures r.internalIp == v.state.internalIp && r.externalIp == v.state.externalIp
    ensures r.status == RUNNING <==> v.state.state == Running
  {
    ApiVM(v.sent.id, "vms/" + v.sent.id, MapVMStatus(None, v.state.state), v.state.internalIp, v.state.externalIp)
  }

  /** The REST answer to a request that ended like this. */
  function Shown(answer: Result<Resource<VMBody, ObservedVM>>): Result<ApiVM> {
    match answer case Err(code) => Err(code) case Ok(v) => Ok(ToApiVM(v))
  }

  predicate GoodDisks(disks: seq<D.VMDisk>, parse: D.Parser) {
    D.BootCount(disks) == 1 && forall d :: d in disks ==> D.Parses(d, parse)
  }

  /** What is asked of the store for a request whose disks are good, once a subnet is known. */
  predicate Translates(id: string, spec: VMSpec, parse: D.Parser, subnet: string, q: Request<VMBody>) {
    && q.id == id && q.name == spec.name && q.labels == spec.labels
    && q.body.templateId == spec.templateId && q.body.instanceType == spec.instanceType
    && q.body.imageSourceType == "registry" && q.body.imageSourceRef == spec.image
    && D.HasBoot(spec.disks, q.body.bootDisk, parse)
    && q.body.additionalDisks == D.AdditionalSizes(spec.disks, parse)
    && q.body.sshPublicKey == (if spec.access.Some? then spec.access.value.sshPublicKey else None)
    && q.body.isWindows == spec.windows
    && q.body.subnets == [subnet]
  }

  /** The outcome once the network has been resolved to `subnet`: nothing is asked of the store if that failed,
      otherwise one owned resource attached to the subnet, in one attempt. */
  ghost predicate AfterNetwork(id: string, spec: VMSpec, parse: D.Parser, env: Environment,
                               store: Store<VMBody, ObservedVM>,
                               before: seq<VMOp>, subnet: Result<string>, r: Result<ApiVM>,
                               asked: Option<Request<VMBody>>)
    reads store
  {
    if subnet.Err? then asked.None? && r == Err(subnet.code) && store.ops == before
    else
      && asked.Some? && Translates(id, spec, parse, subnet.value, asked.value)
      && store.Served(before, Send(asked.value, env.observed, env.create), env.between)
      && r == Shown(store.Told(before, env.get))
  }

  /** Create. Bad disks are refused before anything is asked of the network or the store; a failed network
      resolution before anything is asked of the store; otherwise the request is one attempt, whose failed Get is
      what the caller sees. */
  method Create(client: N.Client, store: Store<VMBody, ObservedVM>, id: string, spec: VMSpec, env: Environment,
                parse: D.Parser)
    returns (r: Result<ApiVM>, ghost asked: Option<Request<VMBody>>, ghost run: N.Run)
    requires N.Passes(env.network.vnetPoll) && N.Passes(env.network.subnetPoll)
    requires store.Valid() && store.kind == VM
    modifies client, store`table, store`ops
    ensures store.Valid()
    ensures !GoodDisks(spec.disks, parse) ==>
              r == Err(InvalidArgument) && asked.None?
              && client.calls == old(client.calls) && store.ops == old(store.ops)
    ensures GoodDisks(spec.disks, parse) ==>
              && client.calls == old(client.calls) + N.Calls(env.network, run)
              && exists subnet ::
                   && N.Resolves(env.network, run, subnet)
                   && AfterNetwork(id, spec, parse, env, store, old(store.ops), subnet, r, asked)
  {
    asked, run := None, N.Run(0, Err(OtherCode), 0);
    var split := D.SplitDisks(spec.disks, parse);
    if !split.Disks? {
      return Err(InvalidArgument), asked, run;
    }
    var sshPublicKey := None;
    if spec.access.Some? {
      sshPublicKey := spec.access.value.sshPublicKey;
    }
    var labels := MergeLabels(VM, spec.labels, id);
    var subnet;
    subnet, run := client.ResolveDefaultSubnet(env.network);
    if subnet.Err? {
      assert AfterNetwork(id, spec, parse, env, store, old(store.ops), subnet, Err(subnet.code), asked);
      return Err(subnet.code), asked, run;
    }
    var body := VMBody(spec.templateId, spec.instanceType, "registry", spec.image, split.boot, split.additional,
                       sshPublicKey, spec.windows, [subnet.value]);
    ghost var q := Request(id, spec.name, spec.labels, body);
    asked := Some(q);
    r := CreateOrRecover(store, Submission(id, spec.name, labels, body), env, q);
    assert AfterNetwork(id, spec, parse, env, store, old(store.ops), subnet, r, asked);
  }

  /** The remote half of Create, after the network. */
  method CreateOrRecover(store: Store<VMBody, ObservedVM>, sent: Submission<VMBody>, env: Environment,
                         ghost q: Request<VMBody>)
    returns (r: Result<ApiVM>)
    requires store.Valid() && store.kind == VM && sent == Built(VM, q)
    modifies store`table, store`ops
    ensures store.Valid() && store.Served(old(store.ops), Send(q, env.observed, env.create), env.between)
    ensures r == Shown(store.Told(old(store.ops), env.get))
  {
    var created := store.Create(sent, env.observed, env.create, q);
    ghost var op := Send(q, env.observed, env.create);
    if created != Err(AlreadyExists) {
      store.ToldAtOnce(old(store.ops), op, env.between, env.get, created);
    }
    if created.Ok? {
      return Ok(ToApiVM(created.value));
    }
    if created.code != AlreadyExists {
      return Err(created.code);
    }
    store.Others(env.between);
    store.ToldLater(old(store.ops), op, env.between, env.get);
    var got := store.Get(sent.id, env.get);
    r := if got.Ok? then Ok(ToApiVM(got.value)) else Err(got.code);
  }
}
