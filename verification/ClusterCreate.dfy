/** Cluster creation: translate the request, resolve its template and version, create, and recover from a
    conflict. */
module ClusterCreate {
  import opened Grpc
  import opened Basics
  import opened ResourceStore
  import opened SemVer
  import opened StatusMapping
  import opened VersionSelection

  datatype ClusterSpec = ClusterSpec(
    name: string, labels: Option<Labels>, version: string, templateId: string, workers: int,
    releaseImage: Option<string>, pullSecret: string, sshKey: string)

  datatype ClusterBody = ClusterBody(
    templateId: string, nodeSets: map<string, int>, version: Resolution, pullSecret: string, sshKey: string)

  /** A reference to a host type, by id or, failing that, by name. */
  datatype HostTypeRef = HostTypeRef(id: string, name: string)

  datatype NodeSet = NodeSet(hostType: Option<HostTypeRef>, size: int)

  /** What the store reports of a cluster besides what was submitted. */
  datatype ObservedCluster = ObservedCluster(status: OsacClusterStatus, nodeSets: map<string, NodeSet>)

  datatype ApiNodeSet = ApiNodeSet(hostType: Option<string>, size: int)

  /** The REST answer. The version is the request's, not the stored object's. */
  datatype ApiCluster = ApiCluster(
    id: string, path: string, status: ClusterStatus, nodeSets: Option<map<string, ApiNodeSet>>, version: Option<string>)

  datatype TemplateReply = Template(nodeSets: set<string>) | TemplateError(code: Code)

  datatype CatalogReply = Catalog(items: seq<Candidate>) | CatalogFailed(code: Code)

  type ClusterOp = Op<ClusterBody, ObservedCluster>

  /** What the remote services do during one Create, and what other requests do between its Create and Get calls. */
  datatype Environment = Environment(
    template: TemplateReply, catalog: CatalogReply, observed: ObservedCluster,
    create: Fault, between: seq<ClusterOp>, get: Fault)

  function ToApiNodeSet(s: NodeSet): ApiNodeSet {
    var host := match s.hostType
      case None => None
      case Some(ref) => if ref.id != "" then Some(ref.id) else if ref.name != "" then Some(ref.name) else None;
    ApiNodeSet(host, s.size)
  }

  function NodeSetsOf(raw: map<string, NodeSet>): Option<map<string, ApiNodeSet>> {
    if raw == map[] then None else Some(map k | k in raw :: ToApiNodeSet(raw[k]))
  }

  /** toAPINodeSets. */
  method ToApiNodeSets(raw: map<string, NodeSet>) returns (r: Option<map<string, ApiNodeSet>>)
    ensures r == NodeSetsOf(raw)
    ensures r.None? <==> raw == map[]
    ensures r.Some? ==> r.value.Keys == raw.Keys && forall k :: k in raw ==>
              && r.value[k].size == raw[k].size
              && match raw[k].hostType
                 case None => r.value[k].hostType == None
                 case Some(ref) =>
                   && (ref.id != "" ==> r.value[k].hostType == Some(ref.id))
                   && (ref.id == "" && ref.name != "" ==> r.value[k].hostType == Some(ref.name))
                   && (ref.id == "" && ref.name == "" ==> r.value[k].hostType == None)
  {
    if raw == map[] {
      return None;
    }
    var sets: map<string, ApiNodeSet> := map[];
    var todo := raw.Keys;
    while todo != {}
      invariant todo <= raw.Keys
      invariant sets == map k | k in raw && k !in todo :: ToApiNodeSet(raw[k])
      decreases todo
    {
      var k :| k in todo;
      var hostType := None;
      if raw[k].hostType.Some? {
        var value := raw[k].hostType.value.id;
        if value == "" {
          value := raw[k].hostType.value.name;
        }
        if value != "" {
          hostType := Some(value);
        }
      }
      sets := sets[k := ApiNodeSet(hostType, raw[k].size)];
      todo := todo - {k};
    }
    assert sets == NodeSetsOf(raw).value;
    r := Some(sets);
  }

  function ApiClusterOf(c: Resource<ClusterBody, ObservedCluster>, version: Option<string>): (r: ApiCluster)
    ensures r.id == c.sent.id && r.path == "clusters/" + r.id && r.version == version
    ensures r.status == ACTIVE <==> c.state.status.state == Ready && !IsDegraded(c.state.status.conditions)
  {
    ApiCluster(c.sent.id, "clusters/" + c.sent.id, MapClusterStatus(None, c.state.status),
               NodeSetsOf(c.state.nodeSets), version)
  }

  /** toAPICluster. */
  method ToApiCluster(c: Resource<ClusterBody, ObservedCluster>, version: Option<string>) returns (r: ApiCluster)
    ensures r == ApiClusterOf(c, version)
  {
    var nodeSets := ToApiNodeSets(c.state.nodeSets);
    r := ApiCluster(c.sent.id, "clusters/" + c.sent.id, MapClusterStatus(None, c.state.status), nodeSets, version);
  }

  /** The REST answer to a request for `version` that ended like this. */
  function Shown(answer: Result<Resource<ClusterBody, ObservedCluster>>, version: string): Result<ApiCluster> {
    match answer case Err(code) => Err(code) case Ok(c) => Ok(ApiClusterOf(c, Some(version)))
  }

  /** resolveNodeSetKey: the single node-set key of the template. */
  method ResolveNodeSetKey(reply: TemplateReply) returns (r: Result<string>)
    ensures r.Ok? <==> reply.Template? && |reply.nodeSets| == 1
    ensures r.Ok? ==> reply.nodeSets == {r.value}
    ensures r.Err? ==> r.code == if reply.TemplateError? && reply.code != NotFound then reply.code else InvalidArgument
  {
    match reply
    case TemplateError(code) => r := Err(if code == NotFound then InvalidArgument else code);
    case Template(nodeSets) =>
      if |nodeSets| != 1 {
        return Err(InvalidArgument);
      }
      var key :| key in nodeSets;
      assert |nodeSets - {key}| == 0;
      r := Ok(key);
  }

  /** Why a request never reaches the store, in the order the checks are made. */
  ghost predicate RefusedEarly(spec: ClusterSpec, env: Environment, parse: Parse, code: Code) {
    if spec.releaseImage.Some? && spec.releaseImage.value != "" then code == InvalidArgument
    else if env.template.TemplateError?
    then code == if env.template.code == NotFound then InvalidArgument else env.template.code
    else if |env.template.nodeSets| != 1 then code == InvalidArgument
    else if env.catalog.CatalogFailed? then code == env.catalog.code
    else code == InvalidArgument && forall c :: c in env.catalog.items ==> !Eligible(c, spec.version, parse)
  }

  /** What is asked of the store for a request that passes. */
  ghost predicate Translates(id: string, spec: ClusterSpec, env: Environment, parse: Parse, q: Request<ClusterBody>) {
    && !(spec.releaseImage.Some? && spec.releaseImage.value != "")
    && q.id == id && q.name == spec.name && q.labels == spec.labels
    && env.template.Template?
    && (exists key :: env.template.nodeSets == {key} && q.body.nodeSets == map[key := spec.workers])
    && env.catalog.Catalog? && q.body.version.Found?
    && IsResolution(env.catalog.items, spec.version, parse, q.body.version)
    && q.body.templateId == spec.templateId && q.body.pullSecret == spec.pullSecret && q.body.sshKey == spec.sshKey
  }

  /** Create. Either the request is refused early and the store is untouched, or one resource, labelled as
      owned whatever labels the caller sent, is asked of the store in one attempt. */
  method Create(store: Store<ClusterBody, ObservedCluster>, id: string, spec: ClusterSpec, env: Environment,
                parse: Parse)
    returns (r: Result<ApiCluster>, ghost asked: Option<Request<ClusterBody>>)
    requires store.Valid() && store.kind == Cluster
    modifies store`table, store`ops
    ensures store.Valid()
    ensures asked.None? ==> store.ops == old(store.ops) && r.Err? && RefusedEarly(spec, env, parse, r.code)
    ensures asked.Some? <==> (spec.releaseImage == None || spec.releaseImage == Some(""))
                             && env.template.Template? && |env.template.nodeSets| == 1 && env.catalog.Catalog?
                             && exists c :: c in env.catalog.items && Eligible(c, spec.version, parse)
    ensures asked.Some? ==>
              && Translates(id, spec, env, parse, asked.value)
              && store.Served(old(store.ops), Send(asked.value, env.observed, env.create), env.between)
              && r == Shown(store.Told(old(store.ops), env.get), spec.version)
  {
    asked := None;
    if spec.releaseImage.Some? && spec.releaseImage.value != "" {
      return Err(InvalidArgument), asked;
    }
    var key := ResolveNodeSetKey(env.template);
    if key.Err? {
      return Err(key.code), asked;
    }
    if env.catalog.CatalogFailed? {
      return Err(env.catalog.code), asked;
    }
    var version := ResolveVersion(Some(env.catalog.items), spec.version, parse);
    if !version.Found? {
      return Err(InvalidArgument), asked;
    }
    var labels := MergeLabels(Cluster, spec.labels, id);
    var body := ClusterBody(spec.templateId, map[key.value := spec.workers], version, spec.pullSecret, spec.sshKey);
    ghost var q := Request(id, spec.name, spec.labels, body);
    asked := Some(q);
    r := CreateOrRecover(store, Submission(id, spec.name, labels, body), env, spec.version, q);
  }

  /** The remote half of Create. */
  method CreateOrRecover(store: Store<ClusterBody, ObservedCluster>, sent: Submission<ClusterBody>, env: Environment,
                         version: string, ghost q: Request<ClusterBody>)
    returns (r: Result<ApiCluster>)
    requires store.Valid() && store.kind == Cluster && sent == Built(Cluster, q)
    modifies store`table, store`ops
    ensures store.Valid() && store.Served(old(store.ops), Send(q, env.observed, env.create), env.between)
    ensures r == Shown(store.Told(old(store.ops), env.get), version)
  {
    var created := store.Create(sent, env.observed, env.create, q);
    ghost var op := Send(q, env.observed, env.create);
    if created != Err(AlreadyExists) {
      store.ToldAtOnce(old(store.ops), op, env.between, env.get, created);
    }
    if created.Ok? {
      var shown := ToApiCluster(created.value, Some(version));
      return Ok(shown);
    }
    if created.code != AlreadyExists {
      return Err(created.code);
    }
    store.Others(env.between);
    store.ToldLater(old(store.ops), op, env.between, env.get);
    r := AfterConflict(store, sent.id, env.get, version, created.code);
  }

  /** The recovering Get. */
  method AfterConflict(store: Store<ClusterBody, ObservedCluster>, id: string, get: Fault, version: string,
                       conflict: Code)
    returns (r: Result<ApiCluster>)
    ensures r == Shown(Recover(Cluster, conflict, GetCall(store.table, id, get)), version)
  {
    var got := store.Get(id, get);
    if got.Ok? {
      var shown := ToApiCluster(got.value, Some(version));
      return Ok(shown);
    }
    if got.code == NotFound {
      return Err(conflict);
    }
    r := Err(got.code);
  }

  /** Two answers for one id, to requests that may overlap, show the same cluster up to what the store reports of
      it, and the same version exactly if the same was requested. */
  lemma AnswersAgree(start: Table<ClusterBody, ObservedCluster>, ops: seq<ClusterOp>, a: Attempt, b: Attempt,
                     v: string, w: string)
    requires WellKept(start) && IsAttempt(ops, a) && IsAttempt(ops, b)
    requires ops[a.sent].request.id == ops[b.sent].request.id
    requires Answer(Cluster, start, ops, a).Ok? && Answer(Cluster, start, ops, b).Ok?
    requires AnsweredAt(Cluster, start, ops, a) <= AnsweredAt(Cluster, start, ops, b)
    requires Spares(ops, AnsweredAt(Cluster, start, ops, a), AnsweredAt(Cluster, start, ops, b), ops[a.sent].request.id)
    ensures var x, y := Shown(Answer(Cluster, start, ops, a), v), Shown(Answer(Cluster, start, ops, b), w);
            && x.Ok? && y.Ok?
            && y.value == x.value.(status := y.value.status, nodeSets := y.value.nodeSets, version := y.value.version)
            && (x.value.version == y.value.version <==> v == w)
  {
    SuccessesAgree(Cluster, start, ops, a, b);
  }
}
